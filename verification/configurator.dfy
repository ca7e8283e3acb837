/**
 * The car configurator: three option groups (model, wheels, package), each
 * holding the price of its selected choice, and a display that shows their
 * sum. A choice carries its price as a `data-price` attribute, read with
 * `parseInt(value, 10) || 0`.
 */
module Configurator {
  import opened Wrappers
  import opened JsNumbers

  /** The three option groups. */
  datatype Group = Model | Wheels | Package

  /** The price currently selected in each group. */
  datatype ConfigState = ConfigState(model: int, wheels: int, package: int)

  /** Before any selection: the base model at 37000, no wheel or package upgrade. */
  const Defaults: ConfigState := ConfigState(37000, 0, 0)

  /** The price stored for one group. */
  function Price(c: ConfigState, g: Group): int {
    match g
    case Model => c.model
    case Wheels => c.wheels
    case Package => c.package
  }

  /** The sum the page displays. */
  function Total(c: ConfigState): int {
    c.model + c.wheels + c.package
  }

  /**
   * `priceValue ? parseInt(priceValue, 10) || 0 : 0` where `priceValue` is the
   * choice's `data-price` attribute (`None` when the attribute is absent). An
   * absent or empty attribute, and one `parseInt` reads as NaN, give 0.
   */
  function PriceOf(attr: Option<string>): (r: int)
    ensures r != 0 ==> attr.Some? && ParseInt(attr.value) == Some(r)
    ensures attr.Some? && ParseInt(attr.value).Some? ==> r == ParseInt(attr.value).value
  {
    match attr
    case None => 0
    case Some(text) =>
      if text == "" then 0
      else
        match ParseInt(text)
        case None => 0
        case Some(n) => n
  }

  /** The options together with the total the display last rendered. */
  datatype Configurator = Configurator(options: ConfigState, displayed: int)

  /** The display agrees with the options. */
  predicate Consistent(c: Configurator) {
    c.displayed == Total(c.options)
  }

  /** Page load renders the default total once. */
  const Init: Configurator := Configurator(Defaults, Total(Defaults))

  /** A click on a choice of group `g` whose `data-price` is `attr`: store its price and re-render. */
  function Select(c: Configurator, g: Group, attr: Option<string>): (r: Configurator)
    ensures Price(r.options, g) == PriceOf(attr)
    ensures forall h :: h != g ==> Price(r.options, h) == Price(c.options, h)
    ensures Consistent(r)
  {
    var p := PriceOf(attr);
    var options :=
      match g
      case Model => c.options.(model := p)
      case Wheels => c.options.(wheels := p)
      case Package => c.options.(package := p);
    Configurator(options, Total(options))
  }

  /** One click on a choice. */
  datatype Selection = Selection(group: Group, attr: Option<string>)

  /** The clicks, first to last. */
  function Run(c: Configurator, clicks: seq<Selection>): (r: Configurator)
    ensures Consistent(c) ==> Consistent(r)
    decreases |clicks|
  {
    if clicks == [] then c
    else
      var last := clicks[|clicks| - 1];
      Select(Run(c, clicks[..|clicks| - 1]), last.group, last.attr)
  }

  /** The attribute of the latest click in group `g`, if there was one. */
  function LastChoice(clicks: seq<Selection>, g: Group): Option<Option<string>> {
    if clicks == [] then None
    else if clicks[|clicks| - 1].group == g then Some(clicks[|clicks| - 1].attr)
    else LastChoice(clicks[..|clicks| - 1], g)
  }

  /** The price a group holds after `clicks`: its latest choice's, else its default. */
  function Expected(clicks: seq<Selection>, g: Group): int {
    match LastChoice(clicks, g)
    case None => Price(Defaults, g)
    case Some(attr) => PriceOf(attr)
  }

  // ---------------------------------------------------------------------
  // Properties

  /** The page opens showing 37000. */
  lemma InitialTotal()
    ensures Consistent(Init) && Init.displayed == 37000
  {
  }

  /**
   * After any clicks, every group holds the price of its own latest choice (or
   * its default), and the display shows model + wheels + package.
   */
  lemma {:induction false} ClicksDetermineState(clicks: seq<Selection>)
    ensures var r := Run(Init, clicks);
      && (forall g :: Price(r.options, g) == Expected(clicks, g))
      && r.displayed == Price(r.options, Model) + Price(r.options, Wheels) + Price(r.options, Package)
  {
    if clicks != [] {
      ClicksDetermineState(clicks[..|clicks| - 1]);
    }
  }

  /** Clicking the same choice again changes nothing. */
  lemma SelectIdempotent(c: Configurator, g: Group, attr: Option<string>)
    ensures Select(Select(c, g, attr), g, attr) == Select(c, g, attr)
  {
  }

  /** Groups are independent: clicks in different groups can be swapped. */
  lemma SelectCommutes(c: Configurator, g: Group, a: Option<string>, h: Group, b: Option<string>)
    requires g != h
    ensures Select(Select(c, g, a), h, b) == Select(Select(c, h, b), g, a)
  {
  }

  /** A click moves the total by exactly the change in its own group's price. */
  lemma SelectTotal(c: Configurator, g: Group, attr: Option<string>)
    ensures Select(c, g, attr).displayed == Total(c.options) - Price(c.options, g) + PriceOf(attr)
  {
  }

  /** A price written as a decimal integer, possibly followed by a non-digit suffix, is read exactly. */
  lemma PriceOfDecimal(n: int, rest: string)
    requires rest == [] || !IsDigit(rest[0])
    ensures PriceOf(Some(DecimalString(n) + rest)) == n
  {
    var sign := if n < 0 then Minus else NoSign;
    var m: nat := if n < 0 then -n else n;
    assert DecimalString(n) + rest == "" + sign.Text() + NaturalString(m) + rest;
    ParseIntOfDecimal("", sign, NaturalString(m), rest);
  }

  /**
   * A `data-price` holding whitespace, an optional sign and decimal digits
   * (zero-padded ones too, as in "042000"), then anything but a digit, gives the
   * signed value of the digits.
   */
  lemma PriceOfDigits(w: string, sign: Sign, ds: string, rest: string)
    requires AllWhitespace(w)
    requires ds != [] && AllDigits(ds)
    requires rest == [] || !IsDigit(rest[0])
    ensures PriceOf(Some(w + sign.Text() + ds + rest)) == sign.Apply(DigitsValue(ds))
  {
    ParseIntOfDecimal(w, sign, ds, rest);
    assert |w + sign.Text() + ds + rest| >= |ds| > 0;
  }

  /** An absent attribute, or one with no digit in it, falls back to 0. */
  lemma PriceOfFallback(attr: Option<string>)
    requires attr.Some? ==> forall i :: 0 <= i < |attr.value| ==> !IsDigit(attr.value[i])
    ensures PriceOf(attr) == 0
  {
    if attr.Some? {
      ParseIntWithoutDigits(attr.value);
    }
  }

  /**
   * A `data-price` with no digit right after its whitespace and optional sign
   * (`"abc123"`, `"$42000"`, `"- 5"`) is NaN to `parseInt`, so it gives 0.
   */
  lemma PriceOfNoLeadingDigits(w: string, sign: Sign, rest: string)
    requires AllWhitespace(w)
    requires rest == [] || !IsDigit(rest[0])
    requires sign == NoSign && rest != [] ==> !IsJsWhitespace(rest[0]) && rest[0] != '+' && rest[0] != '-'
    ensures PriceOf(Some(w + sign.Text() + rest)) == 0
  {
    ParseIntWithoutLeadingDigits(w, sign, rest);
  }

  /** With only non-negative prices on offer, the total is never negative. */
  lemma TotalNonNegative(clicks: seq<Selection>)
    requires forall i :: 0 <= i < |clicks| ==> PriceOf(clicks[i].attr) >= 0
    ensures Run(Init, clicks).displayed >= 0
  {
    ClicksDetermineState(clicks);
    forall g ensures Expected(clicks, g) >= 0 {
      LastChoiceNonNegative(clicks, g);
    }
    assert Expected(clicks, Model) >= 0 && Expected(clicks, Wheels) >= 0 && Expected(clicks, Package) >= 0;
  }

  lemma {:induction false} LastChoiceNonNegative(clicks: seq<Selection>, g: Group)
    requires forall i :: 0 <= i < |clicks| ==> PriceOf(clicks[i].attr) >= 0
    ensures Expected(clicks, g) >= 0
  {
    if clicks != [] && clicks[|clicks| - 1].group != g {
      LastChoiceNonNegative(clicks[..|clicks| - 1], g);
    }
  }

  /** The text the display falls back to when locale formatting fails. */
  function FallbackText(total: int): (text: string)
    ensures CanonicalDecimal(text, total)
    ensures ParseInt(text) == Some(total)
  {
    DecimalStringCanonical(total);
    ParseIntOfDecimalString(total);
    DecimalString(total)
  }

  /** A 42000 model with wheels whose choice carries no price shows 42000. */
  lemma ModelAndUnpricedWheels()
    ensures Select(Select(Init, Model, Some("42000")), Wheels, None).displayed == 42000
  {
    PriceOfModelText();
    var withModel := Select(Init, Model, Some("42000"));
    assert withModel.options == ConfigState(42000, 0, 0);
  }

  lemma PriceOfModelText()
    ensures PriceOf(Some("42000")) == 42000
  {
    assert NaturalString(42) == "42";
    assert NaturalString(420) == "42" + "0";
    assert NaturalString(4200) == "420" + "0";
    assert NaturalString(42000) == "4200" + "0";
    PriceOfDecimalText("42000", 42000);
  }

  /** A `data-price` holding exactly the decimal text of `n` is read as `n`. */
  lemma PriceOfDecimalText(text: string, n: int)
    requires text == DecimalString(n)
    ensures PriceOf(Some(text)) == n
  {
    PriceOfDecimal(n, "");
    assert DecimalString(n) + "" == text;
  }
}
