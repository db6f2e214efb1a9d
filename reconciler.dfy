/**
 * The restoration policy of the `mouseout` handler (main.js:254-283) and
 * the life of one element under any sequence of classifications and
 * mouse-leave events.
 */
module Reconciler {
  import opened Wrappers
  import opened ColorModel
  import opened Classifier

  /**
   * The state the `mouseout` handler leaves, `hovering` being
   * `el.matches(':hover')` when the event fires: nothing while the cursor
   * is still inside, nothing for an originally light element, only the
   * background and border for a text-adjusted one, and all three overrides
   * otherwise; the last two only when an inline background is present.
   */
  function Restore(st: ElementState, hovering: bool): (r: ElementState)
    ensures r.originallyLight == st.originallyLight && r.textAdjusted == st.textAdjusted
    ensures hovering || st.originallyLight || BackgroundColor !in st.inlineStyle ==> r == st
    ensures r.inlineStyle.Keys <= st.inlineStyle.Keys
    ensures forall p :: p in r.inlineStyle ==> r.inlineStyle[p] == st.inlineStyle[p]
  {
    if hovering then st
    else if st.originallyLight then st
    else if st.textAdjusted then
      if BackgroundColor in st.inlineStyle then
        st.(inlineStyle := st.inlineStyle - {BackgroundColor} - {BorderColor})
      else st
    else if BackgroundColor in st.inlineStyle then
      st.(inlineStyle := st.inlineStyle - {BackgroundColor} - {TextColor} - {BorderColor})
    else st
  }

  /**
   * Tiers two and three of the policy: once the cursor has left an element
   * that is not originally light and has an inline background, a
   * text-adjusted element loses exactly its background and border and keeps
   * its text colour; any other loses all three.
   */
  lemma RestoreTiers(st: ElementState)
    requires !st.originallyLight && BackgroundColor in st.inlineStyle
    ensures var r := Restore(st, false);
      && BackgroundColor !in r.inlineStyle && BorderColor !in r.inlineStyle
      && (st.textAdjusted ==> SameEntry(r.inlineStyle, st.inlineStyle, TextColor))
      && (!st.textAdjusted ==> TextColor !in r.inlineStyle)
  {
  }

  /** An event the engine reacts to, for one element. */
  datatype Event =
    | Classify(view: View, isStatic: bool)   // insertion, scan, style mutation, mouseover
    | Leave(hovering: bool)                  // mouseout

  function Step(st: ElementState, e: Event): ElementState {
    match e
    case Classify(v, s) => Process(st, v, s)
    case Leave(h) => Restore(st, h)
  }

  function RunEvents(st: ElementState, es: seq<Event>): ElementState
    decreases |es|
  {
    if es == [] then st else RunEvents(Step(st, es[0]), es[1..])
  }

  /** Once set, a marker survives every later classification and mouse-leave. */
  lemma {:induction false} MarkersPersist(st: ElementState, es: seq<Event>)
    ensures st.originallyLight ==> RunEvents(st, es).originallyLight
    ensures st.textAdjusted ==> RunEvents(st, es).textAdjusted
    decreases |es|
  {
    if es != [] {
      MarkersPersist(Step(st, es[0]), es[1..]);
    }
  }

  /** No mouseover, style mutation or mouseout ever sets a marker. */
  lemma {:induction false} DynamicEventsKeepMarkers(st: ElementState, es: seq<Event>)
    requires forall i :: 0 <= i < |es| && es[i].Classify? ==> !es[i].isStatic
    ensures RunEvents(st, es).originallyLight == st.originallyLight
    ensures RunEvents(st, es).textAdjusted == st.textAdjusted
    decreases |es|
  {
    if es != [] {
      assert forall i :: 0 <= i < |es[1..]| && es[1..][i].Classify? ==> !es[1..][i].isStatic by {
        forall i | 0 <= i < |es[1..]| ensures es[1..][i] == es[i + 1] { }
      }
      DynamicEventsKeepMarkers(Step(st, es[0]), es[1..]);
    }
  }

  /**
   * An originally light element never loses an inline override, whatever
   * sequence of hover cycles and re-classifications follows.
   */
  lemma {:induction false} OriginallyLightKeepsOverrides(st: ElementState, es: seq<Event>)
    requires st.originallyLight
    ensures st.inlineStyle.Keys <= RunEvents(st, es).inlineStyle.Keys
    ensures RunEvents(st, es).originallyLight
    decreases |es|
  {
    if es != [] {
      OriginallyLightKeepsOverrides(Step(st, es[0]), es[1..]);
    }
  }

  // ---------------------------------------------------------------------
  // The three restoration cases, on a plain `<div>`

  const Untouched: ElementState := ElementState(map[], false, false)

  function Div(background: string, color: string): View {
    View(ElementNode, "DIV", ClassString(""), background, color, false)
  }

  lemma DivIsNotExempt(background: string, color: string)
    ensures !Exempt(Div(background, color))
  {
    assert LowerAscii("DIV") == "div";
    assert !Contains("", "navbar") && !Contains("", "row");
    assert forall i :: 0 <= i < |StatusClasses| ==> !Contains("", StatusClasses[i]);
  }

  /** A gray computed background is overridden exactly when its channel exceeds 150. */
  lemma GrayBackground(v: nat)
    ensures BackgroundOverride(RgbText(v, v, v)) == if v > 150 then Some(RgbValue(30, 30, 30)) else None
  {
    ParseRgbText(v, v, v);
  }

  /** A gray computed text colour is lightened to 191 exactly when its channel is at most 127. */
  lemma GrayText(v: nat)
    ensures TextOverride(RgbText(v, v, v)) == if v <= 127 then Some(RgbValue(191, 191, 191)) else None
  {
    ParseRgbText(v, v, v);
    assert MaxChannel(v, v, v) == v && MinChannel(v, v, v) == v;
  }

  /** The overrides and markers a gray `<div>` earns, read off its two channels. */
  lemma GrayDiv(b: nat, f: nat)
    ensures var v := Div(RgbText(b, b, b), RgbText(f, f, f));
      && !Exempt(v)
      && (BackgroundIsLight(v.computedBackground) <==> b > 150)
      && (TextIsDark(v.computedColor) <==> f <= 127)
      && Overrides(v) == (if b > 150 then map[BackgroundColor := DarkBackgroundValue, BorderColor := BorderValue] else map[])
                         + (if f <= 127 then map[TextColor := RgbValue(191, 191, 191)] else map[])
  {
    DivIsNotExempt(RgbText(b, b, b), RgbText(f, f, f));
    GrayBackground(b);
    GrayText(f);
  }

  /** The overrides of an element whose background is light and text is not dark. */
  lemma BackgroundOnly(v: View)
    requires BackgroundIsLight(v.computedBackground) && !TextIsDark(v.computedColor)
    ensures Overrides(v) == map[BackgroundColor := BackgroundOverride(v.computedBackground).value,
                                BorderColor := BorderValue]
  {
    assert Overrides(v) == map[BackgroundColor := BackgroundOverride(v.computedBackground).value,
                               BorderColor := BorderValue] + map[];
  }

  /** The overrides of an element whose background is not light and text is dark. */
  lemma TextOnly(v: View)
    requires !BackgroundIsLight(v.computedBackground) && TextIsDark(v.computedColor)
    ensures Overrides(v) == map[TextColor := TextOverride(v.computedColor).value]
  {
    assert Overrides(v) == map[] + map[TextColor := TextOverride(v.computedColor).value];
  }

  /** An element whose background is not light and text is not dark earns nothing. */
  lemma NoOverrides(v: View)
    requires !BackgroundIsLight(v.computedBackground) && !TextIsDark(v.computedColor)
    ensures Overrides(v) == map[]
  {
    assert Overrides(v) == map[] + map[];
  }

  /**
   * An element whose background is light when it is scanned is darkened and
   * marked originally light, its text lightened and marked exactly when it
   * is dark; leaving it later keeps every override.
   */
  lemma NativeLightCase(v: View)
    requires !Exempt(v) && BackgroundIsLight(v.computedBackground)
    ensures var st := Process(Untouched, v, true);
      && st.originallyLight
      && (st.textAdjusted <==> TextIsDark(v.computedColor))
      && st.inlineStyle[BackgroundColor] == BackgroundOverride(v.computedBackground).value
      && st.inlineStyle[BorderColor] == BorderValue
      && (TextColor in st.inlineStyle <==> TextIsDark(v.computedColor))
      && Restore(st, false) == st
  {
    var st := Process(Untouched, v, true);
    assert map[] + Overrides(v) == Overrides(v);
    assert st == ElementState(Overrides(v), true, TextIsDark(v.computedColor));
  }

  /** The insertion-time state of an element with dark text on a background that is not light. */
  lemma TextAdjustedAtInsertion(v: View)
    requires !Exempt(v) && !BackgroundIsLight(v.computedBackground) && TextIsDark(v.computedColor)
    ensures Process(Untouched, v, true) == ElementState(map[TextColor := TextOverride(v.computedColor).value], false, true)
  {
    TextOnly(v);
    assert map[] + Overrides(v) == Overrides(v);
  }

  /**
   * An element on a dark background with dark text is text-adjusted at
   * insertion; a hover that makes its background light adds a background
   * override, which leaving removes while the lightened text stays.
   */
  lemma TextAdjustedCase(v: View, hover: View)
    requires !Exempt(v) && !BackgroundIsLight(v.computedBackground) && TextIsDark(v.computedColor)
    requires !Exempt(hover) && BackgroundIsLight(hover.computedBackground) && !TextIsDark(hover.computedColor)
    ensures var inserted := Process(Untouched, v, true);
      var hovered := Process(inserted, hover, false);
      && inserted == ElementState(map[TextColor := TextOverride(v.computedColor).value], false, true)
      && hovered.inlineStyle.Keys == {TextColor, BackgroundColor, BorderColor}
      && Restore(hovered, false) == inserted
  {
    TextAdjustedAtInsertion(v);
    var text := map[TextColor := TextOverride(v.computedColor).value];
    var inserted := ElementState(text, false, true);
    var hovered := Process(inserted, hover, false);
    var background := map[BackgroundColor := BackgroundOverride(hover.computedBackground).value, BorderColor := BorderValue];
    assert hovered == ElementState(text + background, false, true) by {
      BackgroundOnly(hover);
    }
    DropBackground(TextOverride(v.computedColor).value, BackgroundOverride(hover.computedBackground).value);
  }

  lemma DropBackground(t: CssValue, b: CssValue)
    ensures (map[TextColor := t] + map[BackgroundColor := b, BorderColor := BorderValue]) - {BackgroundColor} - {BorderColor}
         == map[TextColor := t]
  {
    var m := map[TextColor := t] + map[BackgroundColor := b, BorderColor := BorderValue];
    assert (m - {BackgroundColor} - {BorderColor}).Keys == {TextColor};
  }

  /**
   * An element on a dark background with light text is left alone at
   * insertion; a hover that makes its background light is overridden without
   * markers, and leaving removes every override.
   */
  lemma HoverOnlyCase(v: View, hover: View)
    requires !Exempt(v) && !BackgroundIsLight(v.computedBackground) && !TextIsDark(v.computedColor)
    requires !Exempt(hover) && BackgroundIsLight(hover.computedBackground)
    ensures var inserted := Process(Untouched, v, true);
      var hovered := Process(inserted, hover, false);
      && inserted == Untouched
      && hovered == ElementState(Overrides(hover), false, false)
      && Restore(hovered, false) == Untouched
  {
    NoOverrides(v);
    assert Untouched.inlineStyle + Overrides(v) == map[] && map[] + Overrides(hover) == Overrides(hover);
    assert Overrides(hover).Keys <= {BackgroundColor, TextColor, BorderColor};
    DropAll(Overrides(hover));
  }

  lemma DropAll(m: map<Property, CssValue>)
    requires m.Keys <= {BackgroundColor, TextColor, BorderColor}
    ensures m - {BackgroundColor} - {TextColor} - {BorderColor} == map[]
  {
    var rest := m - {BackgroundColor} - {TextColor} - {BorderColor};
    assert rest.Keys == {};
  }

  /** Gray `<div>`s meet the hypotheses of each case. */
  lemma CasesAreInhabited()
    ensures var dark := RgbText(20, 20, 20);
      var light := RgbText(240, 240, 240);
      var darkText := RgbText(10, 10, 10);
      var lightText := RgbText(200, 200, 200);
      && BackgroundIsLight(Div(light, lightText).computedBackground)
      && !TextIsDark(Div(light, lightText).computedColor)
      && !BackgroundIsLight(Div(dark, darkText).computedBackground)
      && TextIsDark(Div(dark, darkText).computedColor)
      && !Exempt(Div(dark, darkText)) && !Exempt(Div(light, lightText))
  {
    GrayDiv(20, 10);
    GrayDiv(240, 200);
  }
}
