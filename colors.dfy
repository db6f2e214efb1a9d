/**
 * The colour model of main.js: parsing the `rgb()`/`rgba()` text that
 * `getComputedStyle` reports, the luma test for "light" backgrounds, and the
 * RGB/HSL conversions used to lighten dark text.
 *
 * JavaScript numbers are modelled as exact rationals (`real`); `Math.round(x)`
 * is `Floor(x + 0.5)`.
 */
module ColorModel {
  import opened Wrappers

  /** `parseFloat` of the fourth regex group: a number, or NaN. */
  datatype Alpha = Num(value: real) | NaN

  /** The object `parseColor` returns. Channels are not clamped to 0..255. */
  datatype Rgba = Rgba(r: nat, g: nat, b: nat, a: Alpha)

  /** The capture groups of the `parseColor` regex. */
  datatype Groups = Groups(red: string, green: string, blue: string, alpha: Option<string>)

  datatype Rgb = Rgb(r: int, g: int, b: int)

  datatype Hsl = Hsl(h: real, s: real, l: real)

  /** Luma threshold on the 0..255 scale (`lightnessThreshold`). */
  const LightnessThreshold: int := 150
  /** The channel value of `darkBgColor`, `rgb(30, 30, 30)`. */
  const DarkChannel: nat := 30
  /** The HSL lightness dark text is raised to. */
  const LightenedL: real := 0.75

  // ---------------------------------------------------------------------
  // Characters and spans

  /** The separator and the terminator of the regex's groups. */
  const Comma: char := ','
  const CloseParen: char := ')'

  /**
   * Regex `\d` (ASCII digits only, the regex has no `u` flag). No digit is
   * the `,` or `)` that ends a `(\d+)` group.
   */
  predicate IsDigit(c: char): (d: bool)
    ensures d ==> c != Comma && c != CloseParen
  {
    '0' <= c <= '9'
  }

  /**
   * Regex `\s`: ECMAScript WhiteSpace and LineTerminator code points. No
   * space is a digit or `.`, the characters a group after `,\s*` starts with.
   */
  predicate IsSpace(c: char): (w: bool)
    ensures w ==> !IsDigit(c) && c != '.'
  {
    c == '\t' || c == '\n' || c == '\U{B}' || c == '\U{C}' || c == '\r' || c == ' '
    || c == '\U{A0}' || c == '\U{1680}' || ('\U{2000}' <= c <= '\U{200A}')
    || c == '\U{2028}' || c == '\U{2029}' || c == '\U{202F}' || c == '\U{205F}'
    || c == '\U{3000}' || c == '\U{FEFF}'
  }

  /** Regex class `[\d\.]`, which does not hold the `)` that closes the alpha group. */
  predicate IsAlphaChar(c: char): (a: bool)
    ensures a ==> c != Comma && c != CloseParen && !IsSpace(c)
  {
    IsDigit(c) || c == '.'
  }

  predicate AllDigits(s: string) { forall i :: 0 <= i < |s| ==> IsDigit(s[i]) }

  /**
   * The longest prefix of `t` whose characters satisfy `p`, and the rest:
   * what a greedy `[class]*` consumes.
   */
  function Span(t: string, p: char -> bool): (res: (string, string))
    ensures res.0 + res.1 == t
    ensures forall i :: 0 <= i < |res.0| ==> p(res.0[i])
    ensures res.1 == [] || !p(res.1[0])
  {
    if t != [] && p(t[0]) then
      var rest := Span(t[1..], p);
      ConsRun(t[0], rest.0, rest.1, p);
      ([t[0]] + rest.0, rest.1)
    else
      ([], t)
  }

  /** A class character in front of a run of class characters. */
  lemma ConsRun(c: char, run: string, rest: string, p: char -> bool)
    requires p(c) && forall i :: 0 <= i < |run| ==> p(run[i])
    ensures ([c] + run) + rest == [c] + (run + rest)
    ensures forall i :: 0 <= i < |[c] + run| ==> p(([c] + run)[i])
  {
    assert forall i :: 1 <= i < |[c] + run| ==> ([c] + run)[i] == run[i - 1];
  }

  /** A greedy span over `run + rest` stops exactly at the end of `run`. */
  lemma {:induction false} SpanOf(run: string, rest: string, p: char -> bool)
    requires forall i :: 0 <= i < |run| ==> p(run[i])
    requires rest == [] || !p(rest[0])
    ensures Span(run + rest, p) == (run, rest)
  {
    if run == [] {
      assert run + rest == rest;
    } else {
      assert (run + rest)[0] == run[0];
      assert (run + rest)[1..] == run[1..] + rest;
      SpanOf(run[1..], rest, p);
      assert [run[0]] + run[1..] == run;
    }
  }

  // ---------------------------------------------------------------------
  // Decimal numerals

  function DigitValue(c: char): nat
    requires IsDigit(c)
  {
    c as int - '0' as int
  }

  function DigitChar(d: nat): (c: char)
    requires d < 10
    ensures IsDigit(c) && DigitValue(c) == d
  {
    ('0' as int + d) as char
  }

  /**
   * `parseInt` of a run of decimal digits (exact; leading zeros allowed): a
   * number below ten to the power of the run's length.
   */
  function DecimalValue(ds: string): (v: nat)
    requires AllDigits(ds)
    ensures v < Pow10(|ds|)
  {
    if ds == [] then 0
    else DecimalValue(ds[..|ds| - 1]) * 10 + DigitValue(ds[|ds| - 1])
  }

  function Pow10(k: nat): (p: nat)
    ensures p >= 1
  {
    if k == 0 then 1 else 10 * Pow10(k - 1)
  }

  /** The shortest decimal numeral of `n`, as a browser serialises a channel. */
  function Decimal(n: nat): (ds: string)
    ensures ds != [] && AllDigits(ds)
  {
    if n < 10 then [DigitChar(n)] else Decimal(n / 10) + [DigitChar(n % 10)]
  }

  /** The value of a concatenation of digit runs: `a` shifted by the length of `b`, plus `b`. */
  lemma {:induction false} DecimalConcat(a: string, b: string)
    requires AllDigits(a) && AllDigits(b)
    ensures AllDigits(a + b)
    ensures DecimalValue(a + b) == DecimalValue(a) * Pow10(|b|) + DecimalValue(b)
    decreases |b|
  {
    assert forall i :: 0 <= i < |a + b| ==> (a + b)[i] == if i < |a| then a[i] else b[i - |a|];
    if b == [] {
      assert a + b == a;
    } else {
      var b', c := b[..|b| - 1], b[|b| - 1];
      assert (a + b)[..|a + b| - 1] == a + b';
      assert (a + b)[|a + b| - 1] == c;
      DecimalConcat(a, b');
      assert DecimalValue(a + b) == DecimalValue(a + b') * 10 + DigitValue(c);
      assert DecimalValue(b) == DecimalValue(b') * 10 + DigitValue(c);
      Shift(DecimalValue(a), Pow10(|b'|), DecimalValue(b'), DigitValue(c));
    }
  }

  lemma Shift(x: nat, p: nat, y: nat, d: nat)
    ensures (x * p + y) * 10 + d == x * (10 * p) + (y * 10 + d)
  {
  }

  lemma {:induction false} DecimalRoundTrip(n: nat)
    ensures DecimalValue(Decimal(n)) == n
  {
    var ds := Decimal(n);
    if n < 10 {
      assert ds[..|ds| - 1] == [];
    } else {
      assert ds[..|ds| - 1] == Decimal(n / 10);
      DecimalRoundTrip(n / 10);
    }
  }

  /**
   * `parseFloat` of a string over `[0-9.]` (the only strings the regex hands
   * it): the longest prefix of the form `digits[.digits]` or `.digits`;
   * NaN when that prefix holds no digit at all.
   */
  function ParseDecimalPrefix(t: string): (a: Alpha)
    ensures t != [] && IsDigit(t[0]) ==> a.Num? && a.value >= 0.0
    ensures t == [] || (t[0] == '.' && (|t| == 1 || !IsDigit(t[1]))) ==> a == NaN
  {
    var ip := Span(t, IsDigit);
    if ip.1 != [] && ip.1[0] == '.' then
      var fp := Span(ip.1[1..], IsDigit);
      if ip.0 == [] && fp.0 == [] then NaN
      else Num(FractionValue(ip.0, fp.0))
    else if ip.0 == [] then NaN
    else Num(DecimalValue(ip.0) as real)
  }

  /** The number written `I.F`. */
  function FractionValue(ip: string, fp: string): (x: real)
    requires AllDigits(ip) && AllDigits(fp)
    ensures x >= 0.0
  {
    DecimalValue(ip) as real + DecimalValue(fp) as real / Pow10(|fp|) as real
  }

  /** `parseFloat` of a digit run that ends the string, or is followed by neither digit nor `.`, is its value. */
  lemma ParseInteger(ip: string, rest: string)
    requires ip != [] && AllDigits(ip)
    requires rest == [] || (!IsDigit(rest[0]) && rest[0] != '.')
    ensures ParseDecimalPrefix(ip + rest) == Num(DecimalValue(ip) as real)
  {
    SpanOf(ip, rest, IsDigit);
  }

  /**
   * `parseFloat` of `I.F`, either digit run possibly empty but not both, is
   * the integer `IF` divided by ten to the length of `F`; whatever follows
   * the fraction's digits is ignored.
   */
  lemma ParseFraction(ip: string, fp: string, rest: string)
    requires AllDigits(ip) && AllDigits(fp) && (ip != [] || fp != [])
    requires rest == [] || !IsDigit(rest[0])
    ensures ParseDecimalPrefix(ip + ("." + (fp + rest)))
         == Num(DecimalValue(ip + fp) as real / Pow10(|fp|) as real)
  {
    FractionParts(ip, fp, rest);
    DecimalConcat(ip, fp);
    Split(DecimalValue(ip + fp), DecimalValue(ip), DecimalValue(fp), Pow10(|fp|));
  }

  /** `I.F` is read as the integer part `I` and the fraction digits `F`. */
  lemma FractionParts(ip: string, fp: string, rest: string)
    requires AllDigits(ip) && AllDigits(fp) && (ip != [] || fp != [])
    requires rest == [] || !IsDigit(rest[0])
    ensures ParseDecimalPrefix(ip + ("." + (fp + rest)))
         == Num(FractionValue(ip, fp))
  {
    var after := "." + (fp + rest);
    SpanOf(ip, after, IsDigit);
    var sp := Span(ip + after, IsDigit);
    assert sp.1 != [] && sp.1[0] == '.' && sp.1[1..] == fp + rest;
    SpanOf(fp, rest, IsDigit);
    var fs := Span(sp.1[1..], IsDigit);
    assert sp.0 == ip && fs.0 == fp;
  }

  lemma Split(v: nat, x: nat, y: nat, d: nat)
    requires d >= 1 && v == x * d + y
    ensures v as real / d as real == x as real + y as real / d as real
  {
    assert v as real == x as real * d as real + y as real;
  }

  /** The alpha numeral a browser writes for an integer reads back as that integer. */
  lemma ParseDecimalOfDecimal(n: nat)
    ensures ParseDecimalPrefix(Decimal(n)) == Num(n as real)
  {
    assert Decimal(n) + [] == Decimal(n);
    ParseInteger(Decimal(n), []);
    DecimalRoundTrip(n);
  }

  /**
   * A numeral `0.F` reads as a number in [0, 1): the alpha of a translucent
   * colour takes the `rgba(30, 30, 30, A)` branch of main.js:180.
   */
  lemma FractionBelowOne(fp: string, rest: string)
    requires AllDigits(fp) && (rest == [] || !IsDigit(rest[0]))
    ensures var a := ParseDecimalPrefix("0" + ("." + (fp + rest)));
      a.Num? && 0.0 <= a.value < 1.0
  {
    FractionParts("0", fp, rest);
    assert DecimalValue("0") == 0;
    BelowOne(DecimalValue(fp), Pow10(|fp|));
  }

  lemma BelowOne(y: nat, d: nat)
    requires y < d
    ensures 0.0 <= y as real / d as real < 1.0
  {
  }

  /** `parseFloat("0.5")` is one half. */
  lemma ParseHalf()
    ensures ParseDecimalPrefix("0.5") == Num(0.5)
  {
    FractionParts("0", "5", []);
    assert "0" + ("." + ("5" + [])) == "0.5";
    assert DecimalValue("0") == 0 && DecimalValue("5") == 5 && Pow10(1) == 10;
  }

  // ---------------------------------------------------------------------
  // parseColor

  /** A group of one or more characters of class `p` at the start of `u`. */
  function Run(u: string, p: char -> bool): (res: Option<(string, string)>)
    ensures res.Some? ==> res.value.0 != [] && res.value.0 + res.value.1 == u
    ensures res.Some? ==> forall i :: 0 <= i < |res.value.0| ==> p(res.value.0[i])
  {
    var sp := Span(u, p);
    if sp.0 == [] then None else Some(sp)
  }

  /** The regex fragment `,\s*(X+)` at the start of `u`, `X` being class `p`. */
  function Separated(u: string, p: char -> bool): (res: Option<(string, string)>)
    ensures res.Some? ==> res.value.0 != [] && forall i :: 0 <= i < |res.value.0| ==> p(res.value.0[i])
  {
    if u == [] || u[0] != ',' then None else Run(Span(u[1..], IsSpace).1, p)
  }

  /**
   * The regex `rgba?\((\d+),\s*(\d+),\s*(\d+)(?:,\s*([\d\.]+))?\)` anchored
   * at the start of `t`. Every quantifier in it is followed by a character
   * outside its own class, so backtracking never finds a second match and
   * each quantifier takes its longest run.
   */
  function MatchRgb(t: string): (m: Option<Groups>)
    ensures m.Some? ==> AllDigits(m.value.red) && AllDigits(m.value.green) && AllDigits(m.value.blue)
    ensures m.Some? && m.value.alpha.Some? ==> m.value.alpha.value != []
  {
    if |t| < 3 || t[..3] != "rgb" then None
    else
      var t1 := t[3..];
      MatchArguments(if t1 != [] && t1[0] == 'a' then t1[1..] else t1)
  }

  /** The part of the regex after `rgba?`. */
  function MatchArguments(t: string): (m: Option<Groups>)
    ensures m.Some? ==> AllDigits(m.value.red) && AllDigits(m.value.green) && AllDigits(m.value.blue)
    ensures m.Some? && m.value.alpha.Some? ==> m.value.alpha.value != []
  {
    if t == [] || t[0] != '(' then None
    else
      match Run(t[1..], IsDigit)
      case None => None
      case Some(red) =>
        match Separated(red.1, IsDigit)
        case None => None
        case Some(green) =>
          match Separated(green.1, IsDigit)
          case None => None
          case Some(blue) => MatchTail(red.0, green.0, blue.0, blue.1)
  }

  /** The optional alpha group `(?:,\s*([\d\.]+))?` and the closing `\)`. */
  function MatchTail(red: string, green: string, blue: string, t: string): (m: Option<Groups>)
    ensures m.Some? ==> m.value.red == red && m.value.green == green && m.value.blue == blue
    ensures m.Some? && m.value.alpha.Some? ==> m.value.alpha.value != []
  {
    if t != [] && t[0] == ')' then Some(Groups(red, green, blue, None))
    else
      match Separated(t, IsAlphaChar)
      case Some(alpha) =>
        if alpha.1 != [] && alpha.1[0] == ')' then Some(Groups(red, green, blue, Some(alpha.0)))
        else None
      case None => None
  }

  /** `String.prototype.match` without the `g` flag: the leftmost match. */
  function Search(s: string): (m: Option<Groups>)
    ensures m.Some? ==> AllDigits(m.value.red) && AllDigits(m.value.green) && AllDigits(m.value.blue)
    ensures MatchRgb(s).Some? ==> m == MatchRgb(s)
  {
    if MatchRgb(s).Some? then MatchRgb(s)
    else if s == [] then None
    else Search(s[1..])
  }

  /**
   * The search result is the anchored match at the first position of `s`
   * where there is one, and `None` exactly when there is none at any position.
   */
  lemma {:induction false} SearchLeftmost(s: string)
    ensures Search(s).Some? ==>
      exists i :: 0 <= i <= |s| && Search(s) == MatchRgb(s[i..])
               && forall j :: 0 <= j < i ==> MatchRgb(s[j..]).None?
    ensures Search(s).None? ==> forall i :: 0 <= i <= |s| ==> MatchRgb(s[i..]).None?
    decreases |s|
  {
    assert s[0..] == s;
    if MatchRgb(s).None? && s != [] {
      var t := s[1..];
      SearchLeftmost(t);
      assert Search(s) == Search(t);
      if Search(s).Some? {
        var i :| 0 <= i <= |t| && Search(t) == MatchRgb(t[i..])
                 && forall j :: 0 <= j < i ==> MatchRgb(t[j..]).None?;
        assert t[i..] == s[i + 1..];
        forall j | 0 <= j < i + 1
          ensures MatchRgb(s[j..]).None?
        {
          if j > 0 {
            assert s[j..] == t[j - 1..];
          }
        }
        assert 0 <= i + 1 <= |s| && Search(s) == MatchRgb(s[i + 1..]);
      } else {
        forall i | 0 < i <= |s|
          ensures MatchRgb(s[i..]).None?
        {
          assert s[i..] == t[i - 1..];
        }
      }
    }
  }

  /** `parseColor(colorStr)` (main.js:90-102); `None` is JavaScript's `null`. */
  function ParseColor(s: string): (c: Option<Rgba>)
    ensures s == "" || s == "transparent" || s == "rgba(0, 0, 0, 0)" ==> c == None
    ensures c.Some? ==> Search(s).Some?
  {
    if s == "" || s == "transparent" || s == "rgba(0, 0, 0, 0)" then None
    else
      match Search(s)
      case None => None
      case Some(m) =>
        Some(Rgba(DecimalValue(m.red), DecimalValue(m.green), DecimalValue(m.blue),
                  if m.alpha.Some? then ParseDecimalPrefix(m.alpha.value) else Num(1.0)))
  }

  /** The text a browser reports for an opaque colour: `rgb(R, G, B)`. */
  function RgbText(r: nat, g: nat, b: nat): string {
    "rgb" + ("(" + (Decimal(r) + (", " + (Decimal(g) + (", " + (Decimal(b) + ")"))))))
  }

  /** The text `rgba(R, G, B, A)` where `A` is the alpha numeral as written. */
  function RgbaText(r: nat, g: nat, b: nat, alpha: string): string {
    "rgba" + ("(" + (Decimal(r) + (", " + (Decimal(g) + (", " + (Decimal(b) + (", " + (alpha + ")"))))))))
  }

  /** `", " + (run + rest)` is read by `,\s*(X+)` as `run` followed by `rest`. */
  lemma SeparatedOf(run: string, rest: string, p: char -> bool)
    requires run != [] && forall i :: 0 <= i < |run| ==> p(run[i])
    requires !IsSpace(run[0]) && (rest == [] || !p(rest[0]))
    ensures Separated(", " + (run + rest), p) == Some((run, rest))
  {
    var u := ", " + (run + rest);
    assert u[1..] == " " + (run + rest);
    SpanOf(" ", run + rest, IsSpace);
    SpanOf(run, rest, p);
  }

  /** `rgb` and `rgba` are both accepted in front of the argument list. */
  lemma MatchRgbPrefix(head: string, args: string)
    requires head == "rgb" || head == "rgba"
    requires args != [] && args[0] == '('
    ensures MatchRgb(head + args) == MatchArguments(args)
  {
    var t := head + args;
    assert t[..3] == "rgb";
    if head == "rgb" {
      assert t[3..] == args;
    } else {
      assert t[3..] == "a" + args;
      assert ("a" + args)[1..] == args;
    }
  }

  /** Three digit groups separated by `, ` are matched up to what follows them. */
  lemma MatchChannels(dr: string, dg: string, db: string, tail: string)
    requires dr != [] && dg != [] && db != [] && AllDigits(dr) && AllDigits(dg) && AllDigits(db)
    requires tail != [] && !IsDigit(tail[0])
    ensures MatchArguments("(" + (dr + (", " + (dg + (", " + (db + tail)))))) == MatchTail(dr, dg, db, tail)
  {
    var y := ", " + (db + tail);
    var x := ", " + (dg + y);
    var args := "(" + (dr + x);
    assert args[1..] == dr + x;
    SpanOf(dr, x, IsDigit);
    assert IsDigit(dg[0]) && IsDigit(db[0]);
    SeparatedOf(dg, y, IsDigit);
    SeparatedOf(db, tail, IsDigit);
  }

  /** The argument list of three channels, closed by `)`. */
  lemma MatchArgumentsRgb(dr: string, dg: string, db: string)
    requires dr != [] && dg != [] && db != [] && AllDigits(dr) && AllDigits(dg) && AllDigits(db)
    ensures MatchArguments("(" + (dr + (", " + (dg + (", " + (db + ")")))))) == Some(Groups(dr, dg, db, None))
  {
    MatchChannels(dr, dg, db, ")");
  }

  /** The alpha group `, A` and the closing `)`. */
  lemma MatchTailAlpha(dr: string, dg: string, db: string, alpha: string)
    requires alpha != [] && forall i :: 0 <= i < |alpha| ==> IsAlphaChar(alpha[i])
    ensures MatchTail(dr, dg, db, ", " + (alpha + ")")) == Some(Groups(dr, dg, db, Some(alpha)))
  {
    assert IsAlphaChar(alpha[0]) && !IsAlphaChar(')');
    SeparatedOf(alpha, ")", IsAlphaChar);
  }

  /** The argument list of three channels and an alpha numeral, closed by `)`. */
  lemma MatchArgumentsRgba(dr: string, dg: string, db: string, alpha: string)
    requires dr != [] && dg != [] && db != [] && AllDigits(dr) && AllDigits(dg) && AllDigits(db)
    requires alpha != [] && forall i :: 0 <= i < |alpha| ==> IsAlphaChar(alpha[i])
    ensures MatchArguments("(" + (dr + (", " + (dg + (", " + (db + (", " + (alpha + ")")))))))) == Some(Groups(dr, dg, db, Some(alpha)))
  {
    MatchChannels(dr, dg, db, ", " + (alpha + ")"));
    MatchTailAlpha(dr, dg, db, alpha);
  }

  lemma MatchRgbText(r: nat, g: nat, b: nat)
    ensures MatchRgb(RgbText(r, g, b)) == Some(Groups(Decimal(r), Decimal(g), Decimal(b), None))
  {
    var dr, dg, db := Decimal(r), Decimal(g), Decimal(b);
    var args := "(" + (dr + (", " + (dg + (", " + (db + ")")))));
    MatchRgbPrefix("rgb", args);
    MatchArgumentsRgb(dr, dg, db);
  }

  lemma MatchRgbaText(r: nat, g: nat, b: nat, alpha: string)
    requires alpha != [] && forall i :: 0 <= i < |alpha| ==> IsAlphaChar(alpha[i])
    ensures MatchRgb(RgbaText(r, g, b, alpha)) == Some(Groups(Decimal(r), Decimal(g), Decimal(b), Some(alpha)))
  {
    var dr, dg, db := Decimal(r), Decimal(g), Decimal(b);
    var args := "(" + (dr + (", " + (dg + (", " + (db + (", " + (alpha + ")")))))));
    MatchRgbPrefix("rgba", args);
    MatchArgumentsRgba(dr, dg, db, alpha);
  }

  /** No `rgb(...)` text is one of the three special strings. */
  lemma RgbTextNotSpecial(r: nat, g: nat, b: nat)
    ensures var t := RgbText(r, g, b);
      t != "" && t != "transparent" && t != "rgba(0, 0, 0, 0)"
  {
    var t := RgbText(r, g, b);
    assert t[0] == 'r' && t[3] == '(';
    assert "transparent"[0] == 't' && "rgba(0, 0, 0, 0)"[3] == 'a';
  }

  /** A string that is not one of the three special forms and matches at its start parses to the groups' values. */
  lemma ParseMatch(s: string)
    requires s != "" && s != "transparent" && s != "rgba(0, 0, 0, 0)"
    requires MatchRgb(s).Some?
    ensures var m := MatchRgb(s).value;
      ParseColor(s) == Some(Rgba(DecimalValue(m.red), DecimalValue(m.green), DecimalValue(m.blue),
                                 if m.alpha.Some? then ParseDecimalPrefix(m.alpha.value) else Num(1.0)))
  {
  }

  /** An `rgb(R, G, B)` text parses to exactly its channels, opaque. */
  lemma ParseRgbText(r: nat, g: nat, b: nat)
    ensures ParseColor(RgbText(r, g, b)) == Some(Rgba(r, g, b, Num(1.0)))
  {
    MatchRgbText(r, g, b);
    RgbTextNotSpecial(r, g, b);
    ParseMatch(RgbText(r, g, b));
    DecimalRoundTrip(r);
    DecimalRoundTrip(g);
    DecimalRoundTrip(b);
  }

  /**
   * An `rgba(R, G, B, A)` text other than the exact transparent-black string
   * parses to its channels and `parseFloat(A)`.
   */
  lemma ParseRgbaText(r: nat, g: nat, b: nat, alpha: string)
    requires alpha != [] && forall i :: 0 <= i < |alpha| ==> IsAlphaChar(alpha[i])
    requires RgbaText(r, g, b, alpha) != "rgba(0, 0, 0, 0)"
    ensures ParseColor(RgbaText(r, g, b, alpha)) == Some(Rgba(r, g, b, ParseDecimalPrefix(alpha)))
  {
    var t := RgbaText(r, g, b, alpha);
    MatchRgbaText(r, g, b, alpha);
    assert t != "" && t[0] == 'r';
    assert "transparent"[0] == 't';
    ParseMatch(t);
    DecimalRoundTrip(r);
    DecimalRoundTrip(g);
    DecimalRoundTrip(b);
  }

  /** The special transparent forms are `null`, but only as exact strings. */
  lemma TransparentForms()
    ensures ParseColor("") == None
    ensures ParseColor("transparent") == None
    ensures ParseColor(RgbaText(0, 0, 0, "0")) == None
  {
    assert RgbaText(0, 0, 0, "0") == "rgba(0, 0, 0, 0)";
  }

  // ---------------------------------------------------------------------
  // Luma

  /** `isLightColor(r, g, b)`: BT.601 luma on the 0..255 scale, strictly above 150. */
  predicate IsLightColor(r: int, g: int, b: int): (light: bool)
    ensures light <==> 299 * r + 587 * g + 114 * b > 150000
  {
    (r * 299 + g * 587 + b * 114) as real / 1000.0 > LightnessThreshold as real
  }

  /** The threshold is strict: luma 150 is dark, luma 151 is light. */
  lemma LightnessBoundary()
    ensures !IsLightColor(150, 150, 150)
    ensures IsLightColor(151, 151, 151)
    ensures !IsLightColor(DarkChannel, DarkChannel, DarkChannel)
  {
  }

  /** Raising any channel never turns a light colour dark. */
  lemma LightnessMonotone(r: nat, g: nat, b: nat, r': nat, g': nat, b': nat)
    requires r <= r' && g <= g' && b <= b'
    ensures IsLightColor(r, g, b) ==> IsLightColor(r', g', b')
  {
  }

  // ---------------------------------------------------------------------
  // HSL

  function Max(a: real, b: real): real { if a >= b then a else b }
  function Min(a: real, b: real): real { if a <= b then a else b }

  function MaxChannel(r: int, g: int, b: int): int {
    if r >= g && r >= b then r else if g >= b then g else b
  }

  function MinChannel(r: int, g: int, b: int): int {
    if r <= g && r <= b then r else if g <= b then g else b
  }

  /**
   * `rgbToHsl(r, g, b)` (main.js:105-122). When `l > 0.5` and the scaled
   * channels sum to exactly 2 (possible only for channels above 255), the
   * source divides by zero; the model gives saturation 0 there. Saturation is
   * read only when `l < 0.5`.
   */
  function RgbToHsl(r: nat, g: nat, b: nat): (hsl: Hsl)
    ensures hsl.l < 0.5 <==> MaxChannel(r, g, b) + MinChannel(r, g, b) < 255
    ensures (r == g && g == b) ==> hsl.h == 0.0 && hsl.s == 0.0
  {
    var rf, gf, bf := r as real / 255.0, g as real / 255.0, b as real / 255.0;
    var mx, mn := Max(Max(rf, gf), bf), Min(Min(rf, gf), bf);
    assert mx == MaxChannel(r, g, b) as real / 255.0;
    assert mn == MinChannel(r, g, b) as real / 255.0;
    var l := (mx + mn) / 2.0;
    if mx == mn then Hsl(0.0, 0.0, l)
    else
      var d := mx - mn;
      var s := if l > 0.5 then (if mx + mn != 2.0 then d / (2.0 - mx - mn) else 0.0)
               else d / (mx + mn);
      var h := if mx == rf then ((gf - bf) / d + (if gf < bf then 6.0 else 0.0)) / 6.0
               else if mx == gf then ((bf - rf) / d + 2.0) / 6.0
               else ((rf - gf) / d + 4.0) / 6.0;
      Hsl(h * 360.0, s, l)
  }

  /** `hue2rgb(p, q, t)` (main.js:132-139). */
  function Hue2Rgb(p: real, q: real, t: real): real {
    var t1 := if t < 0.0 then t + 1.0 else t;
    var t2 := if t1 > 1.0 then t1 - 1.0 else t1;
    if t2 < 1.0 / 6.0 then p + (q - p) * 6.0 * t2
    else if t2 < 1.0 / 2.0 then q
    else if t2 < 2.0 / 3.0 then p + (q - p) * (2.0 / 3.0 - t2) * 6.0
    else p
  }

  /** `Math.round(x)`: the nearest integer, halves rounded up. */
  function Round(x: real): (n: int)
    ensures x - 0.5 < n as real <= x + 0.5
  {
    (x + 0.5).Floor
  }

  /** `hslToRgb(h, s, l)` (main.js:125-147). */
  function HslToRgb(h: real, s: real, l: real): (c: Rgb)
    ensures s == 0.0 ==> c.r == c.g == c.b == Round(l * 255.0)
  {
    var hh := h / 360.0;
    if s == 0.0 then
      var v := Round(l * 255.0);
      Rgb(v, v, v)
    else
      var q := if l < 0.5 then l * (1.0 + s) else l + s - l * s;
      var p := 2.0 * l - q;
      Rgb(Round(Hue2Rgb(p, q, hh + 1.0 / 3.0) * 255.0),
          Round(Hue2Rgb(p, q, hh) * 255.0),
          Round(Hue2Rgb(p, q, hh - 1.0 / 3.0) * 255.0))
  }

  /**
   * The colour `processElement` writes for dark text: same hue and
   * saturation, lightness 0.75. A gray becomes `rgb(191, 191, 191)`, since
   * round(0.75 * 255) = 191.
   */
  function Lightened(r: nat, g: nat, b: nat): (c: Rgb)
    ensures r == g && g == b ==> c == Rgb(191, 191, 191)
  {
    var hsl := RgbToHsl(r, g, b);
    HslToRgb(hsl.h, hsl.s, LightenedL)
  }

  lemma QuotientAtLeastMinusOne(x: real, d: real)
    requires d > 0.0 && x >= -d
    ensures x / d >= -1.0
  {
  }

  lemma QuotientAtMostOne(x: real, d: real)
    requires d > 0.0 && 0.0 <= x <= d
    ensures 0.0 <= x / d <= 1.0
  {
  }

  /** One sector of the hue formula is non-negative. */
  lemma SectorNonNegative(x: real, d: real, offset: real)
    requires d > 0.0 && x >= -d && offset >= 0.0
    requires offset >= 1.0 || x >= 0.0
    ensures (x / d + offset) / 6.0 >= 0.0
  {
    QuotientAtLeastMinusOne(x, d);
    if x >= 0.0 {
      assert x / d >= 0.0;
    }
  }

  /** Saturation of a dark colour: `0 < s <= 1`. */
  lemma DarkSaturation(r: nat, g: nat, b: nat)
    requires MaxChannel(r, g, b) + MinChannel(r, g, b) < 255
    requires !(r == g && g == b)
    ensures 0.0 < RgbToHsl(r, g, b).s <= 1.0
  {
    var rf, gf, bf := r as real / 255.0, g as real / 255.0, b as real / 255.0;
    var mx, mn := Max(Max(rf, gf), bf), Min(Min(rf, gf), bf);
    assert mx == MaxChannel(r, g, b) as real / 255.0;
    assert mn == MinChannel(r, g, b) as real / 255.0;
    assert mx != mn && (mx + mn) / 2.0 < 0.5;
    DarkSaturationBounds(mx, mn);
    assert RgbToHsl(r, g, b).s == (mx - mn) / (mx + mn);
  }

  /** The dark-half saturation formula `d / (max + min)` lies in (0, 1]. */
  lemma DarkSaturationBounds(mx: real, mn: real)
    requires 0.0 <= mn < mx
    ensures 0.0 < (mx - mn) / (mx + mn) <= 1.0
  {
    QuotientAtMostOne(mx - mn, mx + mn);
    assert (mx - mn) / (mx + mn) != 0.0;
  }

  /** Hue of a colour: `h >= 0`. */
  lemma HueNonNegative(r: nat, g: nat, b: nat)
    ensures RgbToHsl(r, g, b).h >= 0.0
  {
    var rf, gf, bf := r as real / 255.0, g as real / 255.0, b as real / 255.0;
    var mx, mn := Max(Max(rf, gf), bf), Min(Min(rf, gf), bf);
    if mx != mn {
      var d := mx - mn;
      assert d > 0.0;
      var h := if mx == rf then ((gf - bf) / d + (if gf < bf then 6.0 else 0.0)) / 6.0
               else if mx == gf then ((bf - rf) / d + 2.0) / 6.0
               else ((rf - gf) / d + 4.0) / 6.0;
      assert RgbToHsl(r, g, b).h == h * 360.0;
      if mx == rf {
        SectorNonNegative(gf - bf, d, if gf < bf then 6.0 else 0.0);
      } else if mx == gf {
        SectorNonNegative(bf - rf, d, 2.0);
      } else {
        SectorNonNegative(rf - gf, d, 4.0);
      }
    }
  }

  /** For `p <= q` and a hue offset `t >= -1`, `hue2rgb(p, q, t)` lies between `p` and `q`. */
  lemma Hue2RgbBetween(p: real, q: real, t: real)
    requires p <= q && t >= -1.0
    ensures p <= Hue2Rgb(p, q, t) <= q
  {
    var t1 := if t < 0.0 then t + 1.0 else t;
    var t2 := if t1 > 1.0 then t1 - 1.0 else t1;
    if t2 < 1.0 / 6.0 {
      assert t2 >= 0.0;
      RisingBetween(p, q, t2);
      assert Hue2Rgb(p, q, t) == p + (q - p) * 6.0 * t2;
    } else if t2 < 1.0 / 2.0 {
      assert Hue2Rgb(p, q, t) == q;
    } else if t2 < 2.0 / 3.0 {
      FallingBetween(p, q, t2);
      assert Hue2Rgb(p, q, t) == p + (q - p) * (2.0 / 3.0 - t2) * 6.0;
    } else {
      assert Hue2Rgb(p, q, t) == p;
    }
  }

  /** The rising edge of `hue2rgb` (main.js:135) stays between `p` and `q` on its sector. */
  lemma RisingBetween(p: real, q: real, t: real)
    requires p <= q && 0.0 <= t < 1.0 / 6.0
    ensures p <= p + (q - p) * 6.0 * t <= q
  {
    var k := 6.0 * t;
    NonNegProduct(q - p, k);
    NonNegProduct(q - p, 1.0 - k);
    assert (q - p) * 6.0 * t == (q - p) * k;
    assert q - (p + (q - p) * 6.0 * t) == (q - p) * (1.0 - k);
  }

  /** The falling edge of `hue2rgb` (main.js:137) stays between `p` and `q` on its sector. */
  lemma FallingBetween(p: real, q: real, t: real)
    requires p <= q && 1.0 / 2.0 <= t < 2.0 / 3.0
    ensures p <= p + (q - p) * (2.0 / 3.0 - t) * 6.0 <= q
  {
    var k := (2.0 / 3.0 - t) * 6.0;
    NonNegProduct(q - p, k);
    NonNegProduct(q - p, 1.0 - k);
    assert (q - p) * (2.0 / 3.0 - t) * 6.0 == (q - p) * k;
    assert q - (p + (q - p) * (2.0 / 3.0 - t) * 6.0) == (q - p) * (1.0 - k);
  }

  lemma NonNegProduct(x: real, y: real)
    requires x >= 0.0 && y >= 0.0
    ensures x * y >= 0.0
  {
  }

  lemma RoundUpperHalf(x: real)
    requires 0.5 <= x <= 1.0
    ensures 128 <= Round(x * 255.0) <= 255
  {
    assert 128.0 <= x * 255.0 + 0.5 <= 255.5;
  }

  /**
   * Lightening a dark colour (`max + min < 255`) yields channels in
   * 128..255, so the result is no longer dark.
   */
  lemma LightenedChannels(r: nat, g: nat, b: nat)
    requires MaxChannel(r, g, b) + MinChannel(r, g, b) < 255
    ensures var c := Lightened(r, g, b);
      128 <= c.r <= 255 && 128 <= c.g <= 255 && 128 <= c.b <= 255
  {
    if !(r == g && g == b) {
      var hsl := RgbToHsl(r, g, b);
      HueNonNegative(r, g, b);
      DarkSaturation(r, g, b);
      var s := hsl.s;
      var q := LightenedL + s - LightenedL * s;
      var p := 2.0 * LightenedL - q;
      assert 0.5 <= p <= q <= 1.0;
      var hh := hsl.h / 360.0;
      assert hh >= 0.0;
      Hue2RgbBetween(p, q, hh + 1.0 / 3.0);
      Hue2RgbBetween(p, q, hh);
      Hue2RgbBetween(p, q, hh - 1.0 / 3.0);
      RoundUpperHalf(Hue2Rgb(p, q, hh + 1.0 / 3.0));
      RoundUpperHalf(Hue2Rgb(p, q, hh));
      RoundUpperHalf(Hue2Rgb(p, q, hh - 1.0 / 3.0));
    }
  }

  /** The lightened colour of dark text is itself not dark (`l >= 0.5`). */
  lemma LightenedIsNotDark(r: nat, g: nat, b: nat)
    requires MaxChannel(r, g, b) + MinChannel(r, g, b) < 255
    ensures var c := Lightened(r, g, b);
      c.r >= 0 && c.g >= 0 && c.b >= 0 && RgbToHsl(c.r, c.g, c.b).l >= 0.5
  {
    LightenedChannels(r, g, b);
  }
}
