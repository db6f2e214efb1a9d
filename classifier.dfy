/**
 * The per-element classifier of main.js, `processElement(el, isStaticCheck)`
 * (main.js:155-224), as a function from what it reads of an element to the
 * element's new inline overrides and origin markers.
 */
module Classifier {
  import opened Wrappers
  import opened ColorModel

  /** `Node.ELEMENT_NODE`. */
  const ElementNode: int := 1

  /**
   * `el.className`: a string on HTML elements, an `SVGAnimatedString` object
   * on SVG elements (which has no `includes` method).
   */
  datatype ClassName = ClassString(text: string) | AnimatedString

  /** What `processElement` reads of a node: its type, tag, class and computed colours. */
  datatype View = View(
    nodeType: int,
    tagName: string,
    className: ClassName,
    computedBackground: string,
    computedColor: string,
    computedStyleThrows: bool)

  /** The three inline properties the engine writes and removes. */
  datatype Property = BackgroundColor | BorderColor | TextColor

  /**
   * An inline property value. `RgbaValue` is the tagged form of the
   * template `rgba(30, 30, 30, ${a})`; `PageValue` is a value the page set.
   */
  datatype CssValue =
    | RgbValue(r: int, g: int, b: int)
    | RgbaValue(r: int, g: int, b: int, alpha: real)
    | HexValue(hex: string)
    | PageValue(text: string)

  /**
   * What the engine can change on an element: the inline style (restricted to
   * the three properties) and the two dataset markers, `acOriginallyLight`
   * and `acTextAdjusted`, each either absent or `"true"`.
   */
  datatype ElementState = ElementState(
    inlineStyle: map<Property, CssValue>,
    originallyLight: bool,
    textAdjusted: bool)

  const SkipTags: seq<string> := [
    "html", "head", "title", "meta", "link", "style", "script", "img", "svg",
    "path", "br", "hr", "i", "input", "textarea", "select"]

  const StatusClasses: seq<string> := [
    "label-success", "label-warning", "label-danger", "label-info", "accept"]

  /** `darkBgColor`, written when the computed background is opaque. */
  const DarkBackgroundValue: CssValue := RgbValue(DarkChannel, DarkChannel, DarkChannel)

  /** The border colour `#444` written with every background override. */
  const BorderValue: CssValue := HexValue("#444")

  /**
   * `String.prototype.toLowerCase` on the ASCII letters: no upper-case letter
   * is left, and every other character is kept.
   */
  function LowerAscii(s: string): (t: string)
    ensures |t| == |s|
    ensures forall i :: 0 <= i < |t| ==> !('A' <= t[i] <= 'Z')
    ensures forall i :: 0 <= i < |s| && !('A' <= s[i] <= 'Z') ==> t[i] == s[i]
  {
    seq(|s|, i requires 0 <= i < |s| => if 'A' <= s[i] <= 'Z' then (s[i] as int + 32) as char else s[i])
  }

  /** `s.includes(sub)`: the empty string is in every string, and no string holds a longer one. */
  predicate Contains(s: string, sub: string): (b: bool)
    ensures sub == [] ==> b
    ensures b ==> |sub| <= |s|
  {
    sub <= s || (s != [] && Contains(s[1..], sub))
  }

  /** `sub` occurs in `s` at some position. */
  ghost predicate Infix(sub: string, s: string) {
    exists p, q :: s == p + sub + q
  }

  lemma {:induction false} ContainsInfix(p: string, sub: string, q: string)
    ensures Contains(p + sub + q, sub)
  {
    if p == [] {
      assert p + sub + q == sub + q;
    } else {
      assert (p + sub + q)[1..] == p[1..] + sub + q;
      ContainsInfix(p[1..], sub, q);
    }
  }

  /** Conversely, what `includes` finds occurs in the string: `includes` is exactly "is an infix". */
  lemma {:induction false} ContainsSplit(s: string, sub: string)
    requires Contains(s, sub)
    ensures Infix(sub, s)
    decreases |s|
  {
    if sub <= s {
      var q := s[|sub|..];
      assert s == [] + sub + q;
    } else {
      ContainsSplit(s[1..], sub);
      var p, q :| s[1..] == p + sub + q;
      assert s == ([s[0]] + p) + sub + q;
    }
  }

  /**
   * Acrylic containers (`navbar`, `row`) and the five status labels. An
   * element without a class (`el.className || ""`) is not protected.
   */
  predicate ProtectedClass(cls: string): (b: bool)
    ensures cls == [] ==> !b
  {
    Contains(cls, "navbar") || Contains(cls, "row")
    || exists i :: 0 <= i < |StatusClasses| && Contains(cls, StatusClasses[i])
  }

  /**
   * The TypeError of main.js:166: on an SVG element whose tag is not skipped,
   * `className.includes` is not a function. It is raised outside the `try`.
   */
  predicate ThrowsTypeError(v: View): (t: bool)
    ensures v.className.ClassString? ==> !t
  {
    v.nodeType == ElementNode && LowerAscii(v.tagName) !in SkipTags && v.className.AnimatedString?
  }

  /**
   * `processElement` returns, throws or has its `getComputedStyle` call fail
   * before it writes anything (main.js:156-172). An element without a class
   * is processed unless its tag is skipped or its style cannot be computed.
   */
  predicate Exempt(v: View)
  {
    || v.nodeType != ElementNode
    || LowerAscii(v.tagName) in SkipTags
    || v.className.AnimatedString?
    || ProtectedClass(v.className.text)
    || v.computedStyleThrows
  }

  /** An element that throws writes nothing: it is exempt. */
  lemma ThrowingIsExempt(v: View)
    requires ThrowsTypeError(v)
    ensures Exempt(v)
  {
  }

  /** An element without a class is processed unless its tag is skipped or its style cannot be computed. */
  lemma ClasslessIsProcessed(v: View)
    requires v.nodeType == ElementNode && LowerAscii(v.tagName) !in SkipTags
    requires v.className == ClassString("") && !v.computedStyleThrows
    ensures !Exempt(v)
  {
  }

  /**
   * The dark background for a light one of alpha `a` (main.js:180-184): a
   * colour that is not light, translucent exactly when `a` is a number below 1,
   * and then at alpha `a`.
   */
  function DarkBackground(a: Alpha): (o: CssValue)
    ensures (o.RgbValue? || o.RgbaValue?) && !IsLightColor(o.r, o.g, o.b)
    ensures o.RgbaValue? <==> a.Num? && a.value < 1.0
    ensures o.RgbaValue? ==> o.alpha == a.value
  {
    if a.Num? && a.value < 1.0 then RgbaValue(DarkChannel, DarkChannel, DarkChannel, a.value)
    else DarkBackgroundValue
  }

  /** A computed background that parses and passes the luma test. */
  predicate BackgroundIsLight(text: string) {
    var c := ParseColor(text);
    c.Some? && IsLightColor(c.value.r, c.value.g, c.value.b)
  }

  /** A computed text colour that parses and has HSL lightness below 0.5. */
  predicate TextIsDark(text: string) {
    var c := ParseColor(text);
    c.Some? && RgbToHsl(c.value.r, c.value.g, c.value.b).l < 0.5
  }

  /** The background value written for a computed background, if any. */
  function BackgroundOverride(text: string): (o: Option<CssValue>)
    ensures o.Some? <==> BackgroundIsLight(text)
  {
    match ParseColor(text)
    case Some(c) => if IsLightColor(c.r, c.g, c.b) then Some(DarkBackground(c.a)) else None
    case None => None
  }

  /** The text colour written for a computed text colour, if any. */
  function TextOverride(text: string): (o: Option<CssValue>)
    ensures o.Some? <==> TextIsDark(text)
  {
    match ParseColor(text)
    case Some(c) =>
      if RgbToHsl(c.r, c.g, c.b).l < 0.5 then
        var n := Lightened(c.r, c.g, c.b);
        Some(RgbValue(n.r, n.g, n.b))
      else None
    case None => None
  }

  /**
   * The inline writes one classification makes: the background and the
   * `#444` border exactly when the background is light, the text colour
   * exactly when it is dark.
   */
  function Overrides(v: View): (o: map<Property, CssValue>)
    ensures BackgroundColor in o <==> BackgroundIsLight(v.computedBackground)
    ensures BorderColor in o <==> BackgroundIsLight(v.computedBackground)
    ensures BorderColor in o ==> o[BorderColor] == BorderValue
    ensures TextColor in o <==> TextIsDark(v.computedColor)
  {
    var bg := BackgroundOverride(v.computedBackground);
    var fg := TextOverride(v.computedColor);
    (if bg.Some? then map[BackgroundColor := bg.value, BorderColor := BorderValue] else map[])
    + (if fg.Some? then map[TextColor := fg.value] else map[])
  }

  /**
   * The state `processElement(el, isStatic)` leaves: exempt elements are
   * untouched; otherwise the overrides are written over the inline style, and
   * in the static context the markers record which overrides applied.
   */
  function Process(st: ElementState, v: View, isStatic: bool): (r: ElementState)
    ensures Exempt(v) ==> r == st
    ensures !isStatic ==> r.originallyLight == st.originallyLight && r.textAdjusted == st.textAdjusted
    ensures st.originallyLight ==> r.originallyLight
    ensures st.textAdjusted ==> r.textAdjusted
    ensures st.inlineStyle.Keys <= r.inlineStyle.Keys
  {
    if Exempt(v) then st
    else
      ElementState(
        st.inlineStyle + Overrides(v),
        st.originallyLight || (isStatic && BackgroundIsLight(v.computedBackground)),
        st.textAdjusted || (isStatic && TextIsDark(v.computedColor)))
  }

  /** `p` has the same entry (or absence) in both maps. */
  predicate SameEntry(m: map<Property, CssValue>, m': map<Property, CssValue>, p: Property) {
    (p in m <==> p in m') && (p in m ==> m[p] == m'[p])
  }

  /**
   * The background rule: a light computed background gets the dark override at
   * the same alpha, plus the `#444` border, and marks the element originally
   * light in the static context; any other background leaves both properties
   * and the marker as they were.
   */
  lemma BackgroundRule(st: ElementState, v: View, isStatic: bool)
    requires !Exempt(v)
    ensures var r := Process(st, v, isStatic);
      match ParseColor(v.computedBackground)
      case Some(c) =>
        if IsLightColor(c.r, c.g, c.b) then
          && r.inlineStyle[BackgroundColor] == (if c.a.Num? && c.a.value < 1.0
                                                then RgbaValue(30, 30, 30, c.a.value)
                                                else RgbValue(30, 30, 30))
          && r.inlineStyle[BorderColor] == HexValue("#444")
          && r.originallyLight == (st.originallyLight || isStatic)
        else
          && SameEntry(r.inlineStyle, st.inlineStyle, BackgroundColor)
          && SameEntry(r.inlineStyle, st.inlineStyle, BorderColor)
          && r.originallyLight == st.originallyLight
      case None =>
        && SameEntry(r.inlineStyle, st.inlineStyle, BackgroundColor)
        && SameEntry(r.inlineStyle, st.inlineStyle, BorderColor)
        && r.originallyLight == st.originallyLight
  {
    var o := Overrides(v);
    assert Process(st, v, isStatic).inlineStyle == st.inlineStyle + o;
    match ParseColor(v.computedBackground)
    case Some(c) =>
      if IsLightColor(c.r, c.g, c.b) {
        assert o[BackgroundColor] == DarkBackground(c.a);
      } else {
        assert BackgroundColor !in o && BorderColor !in o;
      }
    case None =>
      assert BackgroundColor !in o && BorderColor !in o;
  }

  /**
   * The text rule: a computed text colour whose largest plus smallest channel
   * is below 255 gets the lightened colour, and marks the element text
   * adjusted in the static context; any other colour is left as it was.
   */
  lemma TextRule(st: ElementState, v: View, isStatic: bool)
    requires !Exempt(v)
    ensures var r := Process(st, v, isStatic);
      match ParseColor(v.computedColor)
      case Some(c) =>
        if MaxChannel(c.r, c.g, c.b) + MinChannel(c.r, c.g, c.b) < 255 then
          var n := Lightened(c.r, c.g, c.b);
          && r.inlineStyle[TextColor] == RgbValue(n.r, n.g, n.b)
          && r.textAdjusted == (st.textAdjusted || isStatic)
        else
          SameEntry(r.inlineStyle, st.inlineStyle, TextColor) && r.textAdjusted == st.textAdjusted
      case None =>
        SameEntry(r.inlineStyle, st.inlineStyle, TextColor) && r.textAdjusted == st.textAdjusted
  {
  }

  /**
   * Dark gray text (`r = g = b <= 127`) becomes `rgb(191, 191, 191)`,
   * whatever its alpha: the text rule never reads it.
   */
  lemma GrayTextRule(st: ElementState, v: View, isStatic: bool, gray: nat, a: Alpha)
    requires !Exempt(v)
    requires ParseColor(v.computedColor) == Some(Rgba(gray, gray, gray, a)) && gray <= 127
    ensures Process(st, v, isStatic).inlineStyle[TextColor] == RgbValue(191, 191, 191)
    ensures Process(st, v, isStatic).textAdjusted == (st.textAdjusted || isStatic)
  {
    assert MaxChannel(gray, gray, gray) + MinChannel(gray, gray, gray) < 255;
  }

  /**
   * An element whose class name contains `navbar`, `row` or a status class
   * anywhere, `arrow` or `rows` included, is never touched.
   */
  lemma ProtectedClassUntouched(st: ElementState, v: View, isStatic: bool, p: string, c: string, q: string)
    requires c == "navbar" || c == "row" || c in StatusClasses
    requires v.className == ClassString(p + c + q)
    ensures Process(st, v, isStatic) == st
  {
    ContainsInfix(p, c, q);
    if c in StatusClasses {
      var i :| 0 <= i < |StatusClasses| && StatusClasses[i] == c;
      assert Contains(v.className.text, StatusClasses[i]);
    }
  }

  /**
   * Classifying twice with the same computed style is classifying once, in
   * the static context if either pass was static: the engine's writes are a
   * fixed point, whatever the order of static and dynamic passes.
   */
  lemma ProcessTwice(st: ElementState, v: View, first: bool, second: bool)
    ensures Process(Process(st, v, first), v, second) == Process(st, v, first || second)
  {
    if !Exempt(v) {
      var m := st.inlineStyle + Overrides(v);
      assert m + Overrides(v) == m;
    }
  }

  /** The dark override is itself not light: rgb(30, 30, 30) has luma 30. */
  lemma DarkBackgroundIsNotLight(alpha: string)
    requires alpha != [] && forall i :: 0 <= i < |alpha| ==> IsAlphaChar(alpha[i])
    ensures BackgroundOverride(RgbText(DarkChannel, DarkChannel, DarkChannel)) == None
    ensures BackgroundOverride(RgbaText(DarkChannel, DarkChannel, DarkChannel, alpha)) == None
  {
    ParseRgbText(DarkChannel, DarkChannel, DarkChannel);
    var t := RgbaText(DarkChannel, DarkChannel, DarkChannel, alpha);
    if t != "rgba(0, 0, 0, 0)" {
      ParseRgbaText(DarkChannel, DarkChannel, DarkChannel, alpha);
    }
  }

  /** The lightened colour, read back as computed text, is not dark again. */
  lemma LightenedTextIsNotDark(r: nat, g: nat, b: nat)
    requires MaxChannel(r, g, b) + MinChannel(r, g, b) < 255
    ensures var n := Lightened(r, g, b);
      n.r >= 0 && n.g >= 0 && n.b >= 0 && TextOverride(RgbText(n.r, n.g, n.b)) == None
  {
    LightenedIsNotDark(r, g, b);
    var n := Lightened(r, g, b);
    ParseRgbText(n.r, n.g, n.b);
  }

  /**
   * Re-classifying an element whose computed colours are the engine's own
   * overrides (the style mutation the overrides themselves cause) changes
   * nothing, in either context. The background is the opaque or translucent
   * dark override, or was not light to begin with; the text is the
   * lightened colour of some dark colour, or was not dark to begin with.
   */
  lemma OverridesAreFixedPoint(st: ElementState, v: View, isStatic: bool, alpha: string, r: nat, g: nat, b: nat)
    requires alpha != [] && forall i :: 0 <= i < |alpha| ==> IsAlphaChar(alpha[i])
    requires v.computedBackground == RgbText(DarkChannel, DarkChannel, DarkChannel)
             || v.computedBackground == RgbaText(DarkChannel, DarkChannel, DarkChannel, alpha)
             || !BackgroundIsLight(v.computedBackground)
    requires MaxChannel(r, g, b) + MinChannel(r, g, b) < 255
    requires var n := Lightened(r, g, b);
      (n.r >= 0 && n.g >= 0 && n.b >= 0 && v.computedColor == RgbText(n.r, n.g, n.b))
      || !TextIsDark(v.computedColor)
    ensures Process(st, v, isStatic) == st
  {
    DarkBackgroundIsNotLight(alpha);
    LightenedTextIsNotDark(r, g, b);
    assert !BackgroundIsLight(v.computedBackground) && !TextIsDark(v.computedColor);
    assert Overrides(v) == map[];
    assert st.inlineStyle + map[] == st.inlineStyle;
  }

  /**
   * The index of the first view whose processing raises the TypeError, or
   * the length: how far `scanAll` gets as written.
   */
  function FirstThrow(vs: seq<View>): (k: nat)
    ensures k <= |vs|
    ensures forall j :: 0 <= j < k ==> !ThrowsTypeError(vs[j])
    ensures k < |vs| ==> ThrowsTypeError(vs[k])
  {
    if vs == [] then 0
    else if ThrowsTypeError(vs[0]) then 0
    else 1 + FirstThrow(vs[1..])
  }

  /** One step of a scan that has not thrown yet: it either throws here or goes on. */
  lemma FirstThrowStep(vs: seq<View>, i: nat)
    requires i <= FirstThrow(vs) && i < |vs|
    ensures ThrowsTypeError(vs[i]) ==> FirstThrow(vs) == i
    ensures !ThrowsTypeError(vs[i]) ==> i + 1 <= FirstThrow(vs)
  {
  }
}
