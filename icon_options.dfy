/** The rendering options of a remote SVG icon (`RemoteSvgOptions`), the
    cache key built from them (`makeCacheKey`) and the placeholder glyph
    drawn when no icon can be shown. */
module IconOptions {
  import opened Wrappers

  /** `RemoteSvgOptions`: every field is optional (`undefined` is `None`). */
  datatype RemoteSvgOptions = RemoteSvgOptions(
    strokeColor: Option<string>,
    fillColor: Option<string>,
    className: Option<string>,
    title: Option<string>,
    color: Option<string>)

  /** JavaScript truthiness of an optional string: `undefined` and the empty
      string are falsy. */
  predicate Truthy(x: Option<string>) {
    x.Some? && x.value != ""
  }

  /** `x || fallback` on an optional string. */
  function OrElse(x: Option<string>, fallback: string): string {
    if Truthy(x) then x.value else fallback
  }

  /** `x ?? fallback` on an optional string: only `undefined` is replaced. */
  function Nullish(x: Option<string>, fallback: string): string {
    if x.Some? then x.value else fallback
  }

  /** `sub` occurs in `s` starting at index `i`. */
  predicate OccursAt(s: string, sub: string, i: int) {
    0 <= i <= |s| - |sub| && s[i..i + |sub|] == sub
  }

  /** The three option values the cache key is made of. */
  function KeyFields(options: RemoteSvgOptions): (string, string, string) {
    (OrElse(options.strokeColor, ""), OrElse(options.fillColor, ""), OrElse(options.className, ""))
  }

  /** `makeCacheKey(url, options)`: the URL and the stroke, fill and class
      options, absent ones as empty strings, joined with `|`. */
  function MakeCacheKey(url: string, options: RemoteSvgOptions): (key: string)
    ensures |key| == |url| + 13 + |KeyFields(options).0| + |KeyFields(options).1| + |KeyFields(options).2|
    ensures key[..|url|] == url
  {
    var (stroke, fill, cls) := KeyFields(options);
    url + ("|sc=" + (stroke + ("|fc=" + (fill + ("|cls=" + cls)))))
  }

  predicate NoBar(s: string) {
    '|' !in s
  }

  /** Two keys are equal exactly when their URLs and their stroke, fill and
      class values are, as long as none of the parts before the last
      contains the separator `|`.  In particular `title` and `color` never
      affect the key. */
  lemma CacheKeyInjective(u1: string, o1: RemoteSvgOptions, u2: string, o2: RemoteSvgOptions)
    requires NoBar(u1) && NoBar(KeyFields(o1).0) && NoBar(KeyFields(o1).1)
    requires NoBar(u2) && NoBar(KeyFields(o2).0) && NoBar(KeyFields(o2).1)
    ensures MakeCacheKey(u1, o1) == MakeCacheKey(u2, o2)
        <==> u1 == u2 && KeyFields(o1) == KeyFields(o2)
  {
    var (s1, f1, c1) := KeyFields(o1);
    var (s2, f2, c2) := KeyFields(o2);
    if MakeCacheKey(u1, o1) == MakeCacheKey(u2, o2) {
      Peel(u1, "|sc=", s1 + ("|fc=" + (f1 + ("|cls=" + c1))), u2, s2 + ("|fc=" + (f2 + ("|cls=" + c2))));
      Peel(s1, "|fc=", f1 + ("|cls=" + c1), s2, f2 + ("|cls=" + c2));
      Peel(f1, "|cls=", c1, f2, c2);
    }
  }

  /** Cutting at the first `|`: what precedes it and what follows a
      separator starting with it are determined. */
  lemma Peel(a: string, sep: string, x: string, b: string, y: string)
    requires NoBar(a) && NoBar(b) && |sep| > 0 && sep[0] == '|'
    requires a + (sep + x) == b + (sep + y)
    ensures a == b && x == y
  {
    var l, r := a + (sep + x), b + (sep + y);
    assert l[|a|] == '|' && r[|b|] == '|';
    assert forall i | 0 <= i < |a| :: l[i] == a[i] && a[i] in a;
    assert forall i | 0 <= i < |b| :: r[i] == b[i] && b[i] in b;
    assert |a| == |b|;
    assert a == l[..|a|] && b == r[..|b|];
    assert x == l[|a| + |sep|..] && y == r[|b| + |sep|..];
  }

  /** The separator makes the key ambiguous once a URL contains it: this
      URL with no stroke and the plain URL with stroke `"|sc="` share a key. */
  lemma CacheKeyCollidesOnBar()
    ensures MakeCacheKey("a|sc=", RemoteSvgOptions(None, None, None, None, None))
         == MakeCacheKey("a", RemoteSvgOptions(Some("|sc="), None, None, None, None))
  {
  }

  /** The stroke of the placeholder glyph. */
  function GlyphStroke(options: RemoteSvgOptions): string {
    OrElse(options.strokeColor, "currentColor")
  }

  /** The fill of the placeholder glyph: an empty fill colour is kept. */
  function GlyphFill(options: RemoteSvgOptions): string {
    Nullish(options.fillColor, "none")
  }

  /** The class attribute of the placeholder glyph, absent unless the class
      name is truthy. */
  function GlyphClass(options: RemoteSvgOptions): string {
    if Truthy(options.className) then " class=\"" + options.className.value + "\"" else ""
  }

  /** An attribute `name='value'` as the glyph's markup writes it. */
  function Attr(name: string, value: string): string {
    name + "='" + value + "'"
  }

  const GlyphAttrs: string := " xmlns='http://www.w3.org/2000/svg' viewBox='0 0 24 24' "
  const GlyphShapes: string :=
    " stroke-width='2' stroke-linecap='round' stroke-linejoin='round'>"
    + "<circle cx='12' cy='12' r='10' fill='currentColor' opacity='0.12'></circle>"
    + "<path d='M8 12l3 3 5-6' fill='none'></path>"

  /** The placeholder glyph: a faint circle with a check mark, drawn with
      the stroke, fill and class of the options. */
  function FallbackSvg(options: RemoteSvgOptions): (svg: string)
    ensures |svg| > 10 && svg[..4] == "<svg" && svg[|svg| - 6..] == "</svg>"
  {
    GlyphLayout(GlyphClass(options), GlyphAttrs, Attr("stroke", GlyphStroke(options)),
                Attr("fill", GlyphFill(options)), GlyphShapes);
    "<svg" + GlyphClass(options) + GlyphTail(options)
  }

  /** Everything after the glyph's optional class attribute. */
  function GlyphTail(options: RemoteSvgOptions): string {
    GlyphAttrs + Attr("stroke", GlyphStroke(options)) + " " + Attr("fill", GlyphFill(options))
      + GlyphShapes + "</svg>"
  }

  /** Where the class, the stroke and the fill land in the glyph's markup. */
  lemma GlyphLayout(cls: string, attrs: string, stroke: string, fill: string, shapes: string)
    ensures var svg := "<svg" + cls + (attrs + stroke + " " + fill + shapes + "</svg>");
      && |svg| > 10 && svg[..4] == "<svg" && svg[|svg| - 6..] == "</svg>"
      && svg[..4 + |cls| + |attrs|] == "<svg" + cls + attrs
      && OccursAt(svg, stroke + " " + fill, 4 + |cls| + |attrs|)
  {
    var svg := "<svg" + cls + (attrs + stroke + " " + fill + shapes + "</svg>");
    assert svg == "<svg" + cls + attrs + (stroke + " " + fill) + (shapes + "</svg>");
  }

  /** The glyph's `<svg` tag, after its optional class and its fixed
      namespace and view box, carries the stroke colour (`currentColor`
      unless a non-empty one is given) and then the fill colour (`none`
      unless one is given, even an empty one). */
  lemma FallbackDrawsWithOptions(options: RemoteSvgOptions)
    ensures var at := 4 + |GlyphClass(options)| + |GlyphAttrs|;
      && FallbackSvg(options)[..at] == "<svg" + GlyphClass(options) + GlyphAttrs
      && OccursAt(FallbackSvg(options),
                  Attr("stroke", GlyphStroke(options)) + " " + Attr("fill", GlyphFill(options)), at)
  {
    GlyphLayout(GlyphClass(options), GlyphAttrs, Attr("stroke", GlyphStroke(options)),
                Attr("fill", GlyphFill(options)), GlyphShapes);
  }

  /** The class name only adds `class="…"` right after `<svg`, and only
      when it is truthy: the rest of the glyph is the one drawn without it. */
  lemma FallbackClassAttribute(options: RemoteSvgOptions)
    ensures FallbackSvg(options)
         == "<svg" + GlyphClass(options) + FallbackSvg(options.(className := None))[4..]
    ensures !Truthy(options.className) ==> FallbackSvg(options) == FallbackSvg(options.(className := None))
  {
    var tail := GlyphTail(options);
    assert GlyphTail(options.(className := None)) == tail;
    DropOpening(tail);
  }

  lemma DropOpening(tail: string)
    ensures ("<svg" + "" + tail)[4..] == tail
  {
  }

  /** The glyph and the cache key depend on the stroke, class and fill
      only; `title` and `color` never change either. */
  lemma FallbackIgnoresTitleAndColor(url: string, o1: RemoteSvgOptions, o2: RemoteSvgOptions)
    requires o1.strokeColor == o2.strokeColor && o1.fillColor == o2.fillColor
    requires o1.className == o2.className
    ensures FallbackSvg(o1) == FallbackSvg(o2)
    ensures MakeCacheKey(url, o1) == MakeCacheKey(url, o2)
  {
  }

  /** An empty fill colour and an absent one share a cache key, yet the
      glyph keeps the empty fill (`??`) where an absent one becomes `none`. */
  lemma EmptyFillSharesKeyNotGlyph(o: RemoteSvgOptions, url: string)
    requires o.fillColor == Some("")
    ensures MakeCacheKey(url, o) == MakeCacheKey(url, o.(fillColor := None))
    ensures GlyphFill(o) == "" && GlyphFill(o.(fillColor := None)) == "none"
    ensures FallbackSvg(o) != FallbackSvg(o.(fillColor := None))
  {
    var o' := o.(fillColor := None);
    assert |FallbackSvg(o')| == |FallbackSvg(o)| + 4;
  }
}
