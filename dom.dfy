/**
 * The imperative layer of main.js: the elements the engine writes to, and
 * the code that walks them — `processElement` (main.js:155-224), `scanAll`
 * (main.js:227-232), the mutation observer (main.js:234-246) and the two
 * mouse listeners (main.js:250-283).
 */
module Dom {
  import opened Wrappers
  import opened ColorModel
  import opened Classifier
  import opened Reconciler

  /**
   * A DOM node. What the browser decides — the class name, the computed
   * colours, whether `getComputedStyle` fails, whether the cursor is over
   * the element — is held in fields the engine never writes; the engine's
   * own state is the inline style and the two dataset markers.
   */
  class Node {
    const nodeType: int
    const tagName: string
    /** `getElementsByTagName('*')`: every descendant element, in document order. */
    const descendants: seq<Node>

    var className: ClassName
    var computedBackground: string
    var computedColor: string
    var computedStyleThrows: bool
    /** `el.matches(':hover')`. */
    var hovering: bool

    var inlineStyle: map<Property, CssValue>
    var originallyLight: bool
    var textAdjusted: bool

    /** A node as the page inserts it: no inline overrides and no markers. */
    constructor (nodeType: int, tagName: string, className: ClassName, descendants: seq<Node>,
                 computedBackground: string, computedColor: string)
      ensures this.nodeType == nodeType && this.tagName == tagName && this.descendants == descendants
      ensures this.className == className
      ensures this.computedBackground == computedBackground && this.computedColor == computedColor
      ensures !computedStyleThrows && !hovering
      ensures State() == Untouched
    {
      this.nodeType := nodeType;
      this.tagName := tagName;
      this.descendants := descendants;
      this.className := className;
      this.computedBackground := computedBackground;
      this.computedColor := computedColor;
      computedStyleThrows := false;
      hovering := false;
      inlineStyle := map[];
      originallyLight := false;
      textAdjusted := false;
    }

    /** What `processElement` reads of the node. */
    function Inputs(): View
      reads this`className, this`computedBackground, this`computedColor, this`computedStyleThrows
    {
      View(nodeType, tagName, className, computedBackground, computedColor, computedStyleThrows)
    }

    /** What the engine changes on the node. */
    function State(): ElementState
      reads this`inlineStyle, this`originallyLight, this`textAdjusted
    {
      ElementState(inlineStyle, originallyLight, textAdjusted)
    }
  }

  function Nodes(s: seq<Node>): set<Node> {
    set n | n in s
  }

  /** The inputs of a sequence of nodes, in order. */
  function Inputs(s: seq<Node>): (vs: seq<View>)
    reads Nodes(s)`className, Nodes(s)`computedBackground, Nodes(s)`computedColor, Nodes(s)`computedStyleThrows
    ensures |vs| == |s| && forall i :: 0 <= i < |s| ==> vs[i] == s[i].Inputs()
  {
    if s == [] then []
    else
      assert Nodes(s[1..]) <= Nodes(s);
      [s[0].Inputs()] + Inputs(s[1..])
  }

  // ---------------------------------------------------------------------
  // processElement

  /**
   * `processElement(el, isStaticCheck)`: the skip rules, then the `try`
   * block. `threw` reports the TypeError raised before the `try` on an SVG
   * element.
   */
  method ProcessElement(el: Node, isStaticCheck: bool) returns (threw: bool)
    modifies el`inlineStyle, el`originallyLight, el`textAdjusted
    ensures threw <==> ThrowsTypeError(el.Inputs())
    ensures el.State() == Process(old(el.State()), el.Inputs(), isStaticCheck)
  {
    threw := false;
    if el.nodeType != ElementNode {
      return;
    }
    var tagName := LowerAscii(el.tagName);
    if tagName in SkipTags {
      return;
    }
    if el.className.AnimatedString? {
      threw := true;
      return;
    }
    var className := el.className.text;
    if Contains(className, "navbar") || Contains(className, "row") {
      return;
    }
    if exists i :: 0 <= i < |StatusClasses| && Contains(className, StatusClasses[i]) {
      return;
    }
    WriteOverrides(el, isStaticCheck);
  }

  /**
   * The `try` block of `processElement` (main.js:171-223): nothing if
   * `getComputedStyle` fails, otherwise the background and border writes,
   * then the text colour write, each with its marker in the static context.
   */
  method WriteOverrides(el: Node, isStaticCheck: bool)
    requires el.nodeType == ElementNode && LowerAscii(el.tagName) !in SkipTags
    requires el.className.ClassString? && !ProtectedClass(el.className.text)
    modifies el`inlineStyle, el`originallyLight, el`textAdjusted
    ensures el.State() == Process(old(el.State()), el.Inputs(), isStaticCheck)
  {
    ghost var v, st := el.Inputs(), el.State();
    if el.computedStyleThrows {
      assert Exempt(v);
      return;
    }
    assert !Exempt(v);

    // parseColor, isLightColor and the choice by alpha (main.js:177-184)
    var newBg := BackgroundOverride(el.computedBackground);
    WriteBackground(el, newBg, isStaticCheck);
    // parseColor, rgbToHsl, the lightness test and hslToRgb (main.js:198-213)
    var newColor := TextOverride(el.computedColor);
    WriteText(el, newColor, isStaticCheck);
    ClassificationWrites(st, v, isStaticCheck);
  }

  /** The background and border `setProperty` calls and the `originallyLight` marker (main.js:185-193). */
  method WriteBackground(el: Node, newBg: Option<CssValue>, isStaticCheck: bool)
    modifies el`inlineStyle, el`originallyLight
    ensures el.inlineStyle == if newBg.Some? then old(el.inlineStyle)[BackgroundColor := newBg.value][BorderColor := BorderValue] else old(el.inlineStyle)
    ensures el.originallyLight == (old(el.originallyLight) || (isStaticCheck && newBg.Some?))
  {
    if newBg.Some? {
      el.inlineStyle := el.inlineStyle[BackgroundColor := newBg.value];
      el.inlineStyle := el.inlineStyle[BorderColor := BorderValue];
      if isStaticCheck {
        el.originallyLight := true;
      }
    }
  }

  /** The text `setProperty` call and the `textAdjusted` marker (main.js:211-219). */
  method WriteText(el: Node, newColor: Option<CssValue>, isStaticCheck: bool)
    modifies el`inlineStyle, el`textAdjusted
    ensures el.inlineStyle == if newColor.Some? then old(el.inlineStyle)[TextColor := newColor.value] else old(el.inlineStyle)
    ensures el.textAdjusted == (old(el.textAdjusted) || (isStaticCheck && newColor.Some?))
  {
    if newColor.Some? {
      el.inlineStyle := el.inlineStyle[TextColor := newColor.value];
      if isStaticCheck {
        el.textAdjusted := true;
      }
    }
  }

  /** What `processElement` writes on an element it does not skip, step by step. */
  lemma ClassificationWrites(st: ElementState, v: View, isStatic: bool)
    requires !Exempt(v)
    ensures var bg := BackgroundOverride(v.computedBackground);
      var fg := TextOverride(v.computedColor);
      var m := if bg.Some? then st.inlineStyle[BackgroundColor := bg.value][BorderColor := BorderValue] else st.inlineStyle;
      Process(st, v, isStatic)
      == ElementState(if fg.Some? then m[TextColor := fg.value] else m,
                      st.originallyLight || (isStatic && bg.Some?),
                      st.textAdjusted || (isStatic && fg.Some?))
  {
    SetProperties(st.inlineStyle, BackgroundOverride(v.computedBackground), TextOverride(v.computedColor));
  }

  /** The `setProperty` calls of `processElement`, in order, merge the override maps. */
  lemma SetProperties(m: map<Property, CssValue>, bg: Option<CssValue>, fg: Option<CssValue>)
    ensures var m' := if bg.Some? then m[BackgroundColor := bg.value][BorderColor := BorderValue] else m;
      (if fg.Some? then m'[TextColor := fg.value] else m')
      == m + ((if bg.Some? then map[BackgroundColor := bg.value, BorderColor := BorderValue] else map[])
              + (if fg.Some? then map[TextColor := fg.value] else map[]))
  {
    var b := if bg.Some? then map[BackgroundColor := bg.value, BorderColor := BorderValue] else map[];
    var f := if fg.Some? then map[TextColor := fg.value] else map[];
    var m' := if bg.Some? then m[BackgroundColor := bg.value][BorderColor := BorderValue] else m;
    assert m' == m + b;
    assert (if fg.Some? then m'[TextColor := fg.value] else m') == m' + f;
    assert m + b + f == m + (b + f);
  }

  // ---------------------------------------------------------------------
  // scanAll

  /**
   * The first `i` nodes of `all` have been classified in the static context
   * once each, from their states `start[n]`; the others are untouched.
   */
  ghost predicate ScannedUpTo(all: seq<Node>, start: map<Node, ElementState>, i: nat)
    requires i <= |all|
    reads Nodes(all)`inlineStyle, Nodes(all)`originallyLight, Nodes(all)`textAdjusted,
          Nodes(all)`className, Nodes(all)`computedBackground, Nodes(all)`computedColor, Nodes(all)`computedStyleThrows
  {
    forall n :: n in all ==>
      n in start && n.State() == if n in all[..i] then Process(start[n], n.Inputs(), true) else start[n]
  }

  /** One iteration of the `for (let el of all)` loop of `scanAll`. */
  method ScanStep(all: seq<Node>, ghost start: map<Node, ElementState>, i: nat) returns (threw: bool)
    requires i < |all| && ScannedUpTo(all, start, i)
    modifies Nodes(all)`inlineStyle, Nodes(all)`originallyLight, Nodes(all)`textAdjusted
    ensures threw <==> ThrowsTypeError(all[i].Inputs())
    ensures ScannedUpTo(all, start, i + 1)
  {
    var el := all[i];
    assert el in all;
    ProcessTwice(start[el], el.Inputs(), true, true);
    label Before:
    threw := ProcessElement(el, true);
    assert all[..i + 1] == all[..i] + [el];
    forall n | n in all
      ensures n in start && n.State() == if n in all[..i + 1] then Process(start[n], n.Inputs(), true) else start[n]
    {
      if n != el {
        assert n.State() == old@Before(n.State()) && n.Inputs() == old@Before(n.Inputs());
      }
    }
  }

  /**
   * `scanAll(root)` with each element's failure confined to that element:
   * every descendant is classified in the static context, whatever the
   * others do. A node listed twice is handled by `ProcessTwice`.
   */
  method ScanAll(root: Node)
    modifies Nodes(root.descendants)`inlineStyle, Nodes(root.descendants)`originallyLight,
             Nodes(root.descendants)`textAdjusted
    ensures forall n :: n in root.descendants ==> n.State() == Process(old(n.State()), n.Inputs(), true)
  {
    var all := root.descendants;
    ghost var start := map n | n in Nodes(all) :: n.State();
    for i := 0 to |all|
      invariant ScannedUpTo(all, start, i)
    {
      var threw := ScanStep(all, start, i);
    }
    assert all[..|all|] == all;
  }

  /** An element whose check throws is left as it was, so the scan so far is unchanged. */
  lemma {:induction false} ThrowingStepUnchanged(all: seq<Node>, start: map<Node, ElementState>, i: nat)
    requires i < |all| && ScannedUpTo(all, start, i + 1)
    requires ThrowsTypeError(all[i].Inputs())
    ensures ScannedUpTo(all, start, i)
  {
    forall n | n in all
      ensures n in start && n.State() == if n in all[..i] then Process(start[n], n.Inputs(), true) else start[n]
    {
      assert all[..i + 1] == all[..i] + [all[i]];
    }
  }

  /** One iteration of the as-written loop: it either throws here or classifies `all[i]`. */
  method AsWrittenStep(all: seq<Node>, ghost start: map<Node, ElementState>, ghost vs: seq<View>, i: nat)
    returns (threw: bool)
    requires i < |all| && i <= FirstThrow(vs) && vs == Inputs(all) && ScannedUpTo(all, start, i)
    modifies Nodes(all)`inlineStyle, Nodes(all)`originallyLight, Nodes(all)`textAdjusted
    ensures Inputs(all) == vs
    ensures threw ==> i == FirstThrow(vs) && ScannedUpTo(all, start, i)
    ensures !threw ==> i + 1 <= FirstThrow(vs) && ScannedUpTo(all, start, i + 1)
  {
    FirstThrowStep(vs, i);
    threw := ScanStep(all, start, i);
    assert forall j :: 0 <= j < |all| ==> all[j].Inputs() == vs[j];
    if threw {
      ThrowingStepUnchanged(all, start, i);
    }
  }

  /** The loop of the as-written `scanAll`: it stops at the first element that throws. */
  method AsWrittenLoop(all: seq<Node>, ghost start: map<Node, ElementState>, ghost vs: seq<View>)
    returns (threw: bool, i: nat)
    requires vs == Inputs(all) && ScannedUpTo(all, start, 0)
    modifies Nodes(all)`inlineStyle, Nodes(all)`originallyLight, Nodes(all)`textAdjusted
    ensures Inputs(all) == vs && i == FirstThrow(vs)
    ensures threw <==> i < |all|
    ensures ScannedUpTo(all, start, i)
  {
    threw := false;
    i := 0;
    while i < |all| && !threw
      invariant i <= |all| && i <= FirstThrow(vs)
      invariant Inputs(all) == vs
      invariant threw ==> i == FirstThrow(vs) < |all|
      invariant ScannedUpTo(all, start, i)
      decreases |all| - i, if threw then 0 else 1
    {
      threw := AsWrittenStep(all, start, vs, i);
      if !threw {
        i := i + 1;
      }
    }
  }

  /**
   * `scanAll(root)` as written: the TypeError of the first SVG element that
   * is not skipped leaves `scanAll`, so that element and every later one
   * stay as they were.
   */
  method ScanAllAsWritten(root: Node) returns (threw: bool)
    modifies Nodes(root.descendants)`inlineStyle, Nodes(root.descendants)`originallyLight,
             Nodes(root.descendants)`textAdjusted
    ensures var k := FirstThrow(Inputs(root.descendants));
      && (threw <==> k < |root.descendants|)
      && forall n :: n in root.descendants ==>
           n.State() == if n in root.descendants[..k] then Process(old(n.State()), n.Inputs(), true) else old(n.State())
  {
    var all := root.descendants;
    ghost var start := map n | n in Nodes(all) :: n.State();
    ghost var vs := Inputs(all);
    var i;
    threw, i := AsWrittenLoop(all, start, vs);
  }

  /**
   * An SVG `<g>` ahead of a light `<div>`: the group throws (its tag is not
   * skipped and its class name is an `SVGAnimatedString`), so the as-written
   * scan stops before the div, which the scan would otherwise darken.
   */
  lemma SvgGroupStopsScan()
    ensures var g := View(ElementNode, "g", AnimatedString, "", "", false);
      var div := Div(RgbText(240, 240, 240), RgbText(200, 200, 200));
      && ThrowsTypeError(g) && Exempt(g)
      && FirstThrow([g, div]) == 0
      && Process(Untouched, div, true).originallyLight
  {
    var div := Div(RgbText(240, 240, 240), RgbText(200, 200, 200));
    assert LowerAscii("g") == "g";
    assert forall i :: 0 <= i < |SkipTags| ==> SkipTags[i] != "g";
    GrayDiv(240, 200);
    NativeLightCase(div);
  }

  /** The page of `SvgGroupStopsScan` as nodes: a body holding an SVG group and then a div. */
  method SvgPage(background: string, color: string) returns (body: Node, div: Node)
    ensures fresh(body) && fresh(div) && div != body
    ensures forall n :: n in body.descendants ==> fresh(n)
    ensures |body.descendants| == 2 && body.descendants[1] == div && body.descendants[0] != div
    ensures ThrowsTypeError(body.descendants[0].Inputs())
    ensures div.Inputs() == Div(background, color)
    ensures div.State() == Untouched
  {
    var g := new Node(ElementNode, "g", AnimatedString, [], "", "");
    div := new Node(ElementNode, "DIV", ClassString(""), [], background, color);
    body := new Node(ElementNode, "BODY", ClassString(""), [g, div], "", "");
    SvgGroupStopsScan();
  }

  /** Scanned as written, the div after the group keeps its original state. */
  method SvgPageAsWritten(background: string, color: string) returns (st: ElementState)
    ensures st == Untouched
  {
    var body, div := SvgPage(background, color);
    ghost var vs := Inputs(body.descendants);
    assert FirstThrow(vs) == 0 by { FirstThrowStep(vs, 0); }
    var threw := ScanAllAsWritten(body);
    assert div in body.descendants && div !in body.descendants[..0];
    st := div.State();
  }

  /** Scanned by the corrected `ScanAll`, a light div after the group is marked as originally light. */
  method SvgPageCorrected(background: string, color: string) returns (st: ElementState)
    requires BackgroundIsLight(background)
    ensures st.originallyLight
  {
    var body, div := SvgPage(background, color);
    DivIsNotExempt(background, color);
    ScanAll(body);
    assert div in body.descendants;
    st := div.State();
  }

  // ---------------------------------------------------------------------
  // The mutation observer

  datatype MutationType = ChildList | Attributes | CharacterData

  /** The parts of a `MutationRecord` the observer reads. */
  datatype MutationRecord = MutationRecord(
    kind: MutationType,
    target: Node,
    attributeName: Option<string>,
    addedNodes: seq<Node>)

  /** The record the callback reacts to with a dynamic call; a `class` mutation is not one. */
  predicate IsStyleMutation(m: MutationRecord) {
    m.kind == Attributes && m.attributeName == Some("style")
  }

  /** A `class` mutation is not a style mutation. */
  lemma ClassMutationIsNotStyle(m: MutationRecord)
    requires m.attributeName == Some("class")
    ensures !IsStyleMutation(m)
  {
    assert "class"[0] != "style"[0];
  }

  /** One `processElement(node, isStatic)` call. */
  datatype Call = Call(node: Node, isStatic: bool)

  /** The calls `scanAll(node)` makes. */
  function ScanCalls(ds: seq<Node>): (cs: seq<Call>)
    ensures |cs| == |ds| && forall i :: 0 <= i < |ds| ==> cs[i] == Call(ds[i], true)
  {
    if ds == [] then [] else [Call(ds[0], true)] + ScanCalls(ds[1..])
  }

  /**
   * The calls one added node causes: itself, then its descendants, if it is
   * an element; all of them static.
   */
  function NodeCalls(n: Node): seq<Call> {
    if n.nodeType == ElementNode then [Call(n, true)] + ScanCalls(n.descendants) else []
  }

  /** An element makes one call and one per descendant, a non-element none; all are static. */
  lemma NodeCallsShape(n: Node)
    ensures var cs := NodeCalls(n);
      && |cs| == (if n.nodeType == ElementNode then 1 + |n.descendants| else 0)
      && forall i :: 0 <= i < |cs| ==> cs[i].isStatic
  {
  }

  /** The calls `mutation.addedNodes.forEach(...)` makes, all of them static. */
  function AddedCalls(ns: seq<Node>): (cs: seq<Call>)
    ensures forall i :: 0 <= i < |cs| ==> cs[i].isStatic
    decreases |ns|
  {
    if ns == [] then []
    else
      NodeCallsShape(ns[|ns| - 1]);
      AddedCalls(ns[..|ns| - 1]) + NodeCalls(ns[|ns| - 1])
  }

  /**
   * The calls one mutation record causes: static ones for the added nodes,
   * then, for a style mutation only, one dynamic call on its target.
   */
  function MutationCalls(m: MutationRecord): seq<Call> {
    AddedCalls(m.addedNodes) + if IsStyleMutation(m) then [Call(m.target, false)] else []
  }

  /** Every call of a record is static, except the final dynamic call on the target of a style mutation. */
  lemma MutationCallsShape(m: MutationRecord)
    ensures var cs := MutationCalls(m);
      && (IsStyleMutation(m) ==> cs != [] && cs[|cs| - 1] == Call(m.target, false))
      && forall i :: 0 <= i < |cs| && !(IsStyleMutation(m) && i == |cs| - 1) ==> cs[i].isStatic
  {
  }

  /**
   * The calls one observer batch causes, in order. A batch without style
   * mutations makes only static calls.
   */
  function Calls(ms: seq<MutationRecord>): (cs: seq<Call>)
    ensures (forall i :: 0 <= i < |ms| ==> !IsStyleMutation(ms[i])) ==> forall i :: 0 <= i < |cs| ==> cs[i].isStatic
    decreases |ms|
  {
    if ms == [] then []
    else
      MutationCallsShape(ms[|ms| - 1]);
      Calls(ms[..|ms| - 1]) + MutationCalls(ms[|ms| - 1])
  }

  function Targets(cs: seq<Call>): set<Node> {
    set c | c in cs :: c.node
  }

  /**
   * Of the two observed attributes, only `style` makes the callback act: a
   * `class` mutation causes no call, a `style` mutation one dynamic call on
   * its target.
   */
  lemma AttributeMutations(target: Node)
    ensures MutationCalls(MutationRecord(Attributes, target, Some("class"), [])) == []
    ensures MutationCalls(MutationRecord(Attributes, target, Some("style"), [])) == [Call(target, false)]
  {
    assert "class"[0] != "style"[0];
  }

  /**
   * The state of a node after a run of classifications of unchanged inputs:
   * untouched if none named it, otherwise one classification, static if any
   * of them was.
   */
  function Expect(st: ElementState, v: View, inStatic: bool, inDynamic: bool): ElementState {
    if inStatic || inDynamic then Process(st, v, inStatic) else st
  }

  /** One more classification folds into `Expect`. */
  lemma ExpectStep(st: ElementState, v: View, inStatic: bool, inDynamic: bool, isStatic: bool)
    ensures Process(Expect(st, v, inStatic, inDynamic), v, isStatic)
         == Expect(st, v, inStatic || isStatic, inDynamic || !isStatic)
  {
    if inStatic || inDynamic {
      ProcessTwice(st, v, inStatic, isStatic);
    }
  }

  /**
   * The nodes one observer batch can touch: the added elements, their
   * descendants and the targets of style mutations.
   */
  function BatchNodes(ms: seq<MutationRecord>): (ns: set<Node>)
    ensures (forall i :: 0 <= i < |ms| ==> ms[i].addedNodes == [] && !IsStyleMutation(ms[i])) ==> ns == {}
  {
    (set m, n | m in ms && n in m.addedNodes && n.nodeType == ElementNode :: n)
    + (set m, n, d | m in ms && n in m.addedNodes && n.nodeType == ElementNode && d in n.descendants :: d)
    + (set m | m in ms && IsStyleMutation(m) :: m.target)
  }

  /**
   * Every node of `ns` is in the state its classifications so far, `done`,
   * fold to from its state at the start of the batch, `start[n]`.
   */
  ghost predicate Folded(ns: set<Node>, start: map<Node, ElementState>, done: seq<Call>)
    reads ns`inlineStyle, ns`originallyLight, ns`textAdjusted,
          ns`className, ns`computedBackground, ns`computedColor, ns`computedStyleThrows
  {
    forall n :: n in ns ==>
      n in start && n.State() == Expect(start[n], n.Inputs(), Call(n, true) in done, Call(n, false) in done)
  }

  /** One `processElement` call of the batch keeps the states folded. */
  method ClassifyInBatch(ghost ns: set<Node>, ghost start: map<Node, ElementState>, ghost done: seq<Call>,
                         el: Node, isStatic: bool)
    requires el in ns && Folded(ns, start, done)
    modifies ns`inlineStyle, ns`originallyLight, ns`textAdjusted
    ensures Folded(ns, start, done + [Call(el, isStatic)])
  {
    var threw := ProcessElement(el, isStatic);
    var done' := done + [Call(el, isStatic)];
    forall n | n in ns
      ensures n in start && n.State() == Expect(start[n], n.Inputs(), Call(n, true) in done', Call(n, false) in done')
    {
      if n == el {
        ExpectStep(start[n], n.Inputs(), Call(n, true) in done, Call(n, false) in done, isStatic);
      }
    }
  }

  /** One `scanAll(node)` call of the batch keeps the states folded. */
  method ScanInBatch(ghost ns: set<Node>, ghost start: map<Node, ElementState>, ghost done: seq<Call>, root: Node)
    requires Nodes(root.descendants) <= ns && Folded(ns, start, done)
    modifies ns`inlineStyle, ns`originallyLight, ns`textAdjusted
    ensures Folded(ns, start, done + ScanCalls(root.descendants))
  {
    ScanAll(root);
    var done' := done + ScanCalls(root.descendants);
    forall n | n in ns
      ensures n in start && n.State() == Expect(start[n], n.Inputs(), Call(n, true) in done', Call(n, false) in done')
    {
      if n in root.descendants {
        ExpectStep(start[n], n.Inputs(), Call(n, true) in done, Call(n, false) in done, true);
        assert Call(n, true) in ScanCalls(root.descendants);
      }
    }
  }

  /**
   * The observer callback with each element's failure confined to that
   * element: every added element and its descendants are classified in the
   * static context and every style-mutation target in the dynamic one; a
   * node's final state is one classification, static if any was, of its
   * state before the batch.
   */
  method OnMutations(ms: seq<MutationRecord>)
    modifies BatchNodes(ms)`inlineStyle, BatchNodes(ms)`originallyLight, BatchNodes(ms)`textAdjusted
    ensures forall n :: n in BatchNodes(ms) ==>
      n.State() == Expect(old(n.State()), n.Inputs(), Call(n, true) in Calls(ms), Call(n, false) in Calls(ms))
  {
    ghost var ns := BatchNodes(ms);
    ghost var start := map n | n in ns :: n.State();
    ghost var done: seq<Call> := [];
    for i := 0 to |ms|
      invariant done == Calls(ms[..i])
      invariant Folded(ns, start, done)
    {
      assert ms[i] in ms;
      done := MutationInBatch(ns, start, done, ms[i]);
      assert ms[..i + 1][..i] == ms[..i];
    }
    assert ms[..|ms|] == ms;
  }

  /** The callback's work for one mutation record. */
  method MutationInBatch(ghost ns: set<Node>, ghost start: map<Node, ElementState>, ghost done: seq<Call>,
                         m: MutationRecord)
    returns (ghost done': seq<Call>)
    requires forall n :: n in m.addedNodes && n.nodeType == ElementNode ==> n in ns && Nodes(n.descendants) <= ns
    requires IsStyleMutation(m) ==> m.target in ns
    requires Folded(ns, start, done)
    modifies ns`inlineStyle, ns`originallyLight, ns`textAdjusted
    ensures done' == done + MutationCalls(m)
    ensures Folded(ns, start, done')
  {
    done' := AddedNodesInBatch(ns, start, done, m.addedNodes);
    if IsStyleMutation(m) {
      ClassifyInBatch(ns, start, done', m.target, false);
    }
    Associative(done, AddedCalls(m.addedNodes), if IsStyleMutation(m) then [Call(m.target, false)] else []);
    done' := done' + if IsStyleMutation(m) then [Call(m.target, false)] else [];
  }

  /**
   * `mutation.addedNodes.forEach(...)`: each added element is classified in
   * the static context, then its descendants by `scanAll(node)`.
   */
  method AddedNodesInBatch(ghost ns: set<Node>, ghost start: map<Node, ElementState>, ghost done: seq<Call>,
                           added: seq<Node>)
    returns (ghost done': seq<Call>)
    requires forall n :: n in added && n.nodeType == ElementNode ==> n in ns && Nodes(n.descendants) <= ns
    requires Folded(ns, start, done)
    modifies ns`inlineStyle, ns`originallyLight, ns`textAdjusted
    ensures done' == done + AddedCalls(added)
    ensures Folded(ns, start, done')
  {
    done' := done;
    for j := 0 to |added|
      invariant done' == done + AddedCalls(added[..j])
      invariant Folded(ns, start, done')
    {
      var node := added[j];
      assert node in added;
      if node.nodeType == ElementNode {
        ClassifyInBatch(ns, start, done', node, true);
        ScanInBatch(ns, start, done' + [Call(node, true)], node);
        Associative(done', [Call(node, true)], ScanCalls(node.descendants));
      }
      assert added[..j + 1][..j] == added[..j];
      Associative(done, AddedCalls(added[..j]), NodeCalls(node));
      done' := done' + NodeCalls(node);
    }
    assert added[..|added|] == added;
  }

  lemma Associative(a: seq<Call>, b: seq<Call>, c: seq<Call>)
    ensures a + b + c == a + (b + c)
  {
  }

  lemma TargetsAppend(a: seq<Call>, b: seq<Call>)
    ensures Targets(a + b) == Targets(a) + Targets(b)
  {
    assert forall c :: c in a + b <==> c in a || c in b;
  }

  /** The elements added by `ns`, and their descendants. */
  function AddedElements(ns: seq<Node>): set<Node> {
    (set n | n in ns && n.nodeType == ElementNode :: n)
    + (set n, d | n in ns && n.nodeType == ElementNode && d in n.descendants :: d)
  }

  /** The nodes one added node makes the callback classify. */
  function NodeElements(n: Node): set<Node> {
    if n.nodeType == ElementNode then {n} + Nodes(n.descendants) else {}
  }

  lemma ScanTargets(ds: seq<Node>)
    ensures Targets(ScanCalls(ds)) == Nodes(ds)
  {
    var cs := ScanCalls(ds);
    forall d | d in ds ensures d in Targets(cs) {
      var i :| 0 <= i < |ds| && ds[i] == d;
      assert cs[i] in cs;
    }
  }

  lemma NodeTargets(n: Node)
    ensures Targets(NodeCalls(n)) == NodeElements(n)
  {
    if n.nodeType == ElementNode {
      ScanTargets(n.descendants);
      TargetsAppend([Call(n, true)], ScanCalls(n.descendants));
    }
  }

  lemma AddedElementsAppend(init: seq<Node>, n: Node)
    ensures AddedElements(init + [n]) == AddedElements(init) + NodeElements(n)
  {
    var ns := init + [n];
    forall x | x in AddedElements(ns) ensures x in AddedElements(init) + NodeElements(n) {
      if x !in AddedElements(init) {
        if x !in ns || x.nodeType != ElementNode {
          var p :| p in ns && p.nodeType == ElementNode && x in p.descendants;
          assert p !in init;
        }
      }
    }
    forall x | x in AddedElements(init) + NodeElements(n) ensures x in AddedElements(ns) {
      if x in AddedElements(init) && (x !in init || x.nodeType != ElementNode) {
        var p :| p in init && p.nodeType == ElementNode && x in p.descendants;
        assert p in ns;
      } else if x in AddedElements(init) {
        assert x in ns;
      } else if x != n {
        assert n in ns;
      }
    }
  }

  lemma {:induction false} AddedTargets(ns: seq<Node>)
    ensures Targets(AddedCalls(ns)) == AddedElements(ns)
    decreases |ns|
  {
    if ns != [] {
      var init, n := ns[..|ns| - 1], ns[|ns| - 1];
      assert ns == init + [n];
      assert AddedCalls(ns) == AddedCalls(init) + NodeCalls(n);
      AddedTargets(init);
      TargetsAppend(AddedCalls(init), NodeCalls(n));
      NodeTargets(n);
      AddedElementsAppend(init, n);
    }
  }

  /** The nodes one mutation record makes the callback classify. */
  function MutationElements(m: MutationRecord): set<Node> {
    AddedElements(m.addedNodes) + if IsStyleMutation(m) then {m.target} else {}
  }

  lemma BatchNodesAppend(init: seq<MutationRecord>, m: MutationRecord)
    ensures BatchNodes(init + [m]) == BatchNodes(init) + MutationElements(m)
  {
    var ms := init + [m];
    forall x | x in BatchNodes(ms) ensures x in BatchNodes(init) + MutationElements(m) {
      if x !in BatchNodes(init) {
        if exists p, n :: p in ms && n in p.addedNodes && n.nodeType == ElementNode && x == n {
          var p, n :| p in ms && n in p.addedNodes && n.nodeType == ElementNode && x == n;
          assert p !in init;
        } else if exists p, n :: p in ms && n in p.addedNodes && n.nodeType == ElementNode && x in n.descendants {
          var p, n :| p in ms && n in p.addedNodes && n.nodeType == ElementNode && x in n.descendants;
          assert p !in init;
        } else {
          var p :| p in ms && IsStyleMutation(p) && p.target == x;
          assert p !in init;
        }
      }
    }
    forall x | x in MutationElements(m) ensures x in BatchNodes(ms) {
      assert m in ms;
    }
  }

  lemma MutationTargets(m: MutationRecord)
    ensures Targets(MutationCalls(m)) == MutationElements(m)
  {
    AddedTargets(m.addedNodes);
    TargetsAppend(AddedCalls(m.addedNodes), if IsStyleMutation(m) then [Call(m.target, false)] else []);
  }

  /**
   * The nodes of `BatchNodes(ms)` are exactly those some `processElement`
   * call of the batch names, so the callback touches no other node.
   */
  lemma {:induction false} BatchNodesAreTargets(ms: seq<MutationRecord>)
    ensures Targets(Calls(ms)) == BatchNodes(ms)
    decreases |ms|
  {
    if ms != [] {
      var init, m := ms[..|ms| - 1], ms[|ms| - 1];
      assert ms == init + [m];
      BatchNodesAreTargets(init);
      MutationTargets(m);
      assert Calls(ms) == Calls(init) + MutationCalls(m);
      TargetsAppend(Calls(init), MutationCalls(m));
      BatchNodesAppend(init, m);
    }
  }

  // ---------------------------------------------------------------------
  // The mouse listeners

  /** The `mouseover` listener: a dynamic classification of the target. */
  method MouseOver(el: Node)
    modifies el`inlineStyle, el`originallyLight, el`textAdjusted
    ensures el.State() == Process(old(el.State()), el.Inputs(), false)
  {
    var threw := ProcessElement(el, false);
  }

  /** The `mouseout` listener: the restoration policy, written out as main.js removes properties. */
  method MouseOut(el: Node)
    modifies el`inlineStyle
    ensures el.State() == Restore(old(el.State()), el.hovering)
  {
    if el.hovering {
      return;
    }
    if el.originallyLight {
      return;
    }
    if el.textAdjusted {
      if BackgroundColor in el.inlineStyle {
        el.inlineStyle := el.inlineStyle - {BackgroundColor};
        el.inlineStyle := el.inlineStyle - {BorderColor};
      }
      return;
    }
    if BackgroundColor in el.inlineStyle {
      el.inlineStyle := el.inlineStyle - {BackgroundColor};
      el.inlineStyle := el.inlineStyle - {TextColor};
      el.inlineStyle := el.inlineStyle - {BorderColor};
    }
  }
}
