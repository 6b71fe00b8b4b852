/**
  The two pure helpers of the energy dashboard page: the month-over-month comparison shown
  under each summary card, and the tooltip formatter of the two charts.
*/
module Dashboard {
  import opened Wrappers
  import opened Numerals
  import opened JsNumber

  // ---------------------------------------------------------------------------
  // Month-over-month comparison (getComparison)
  // ---------------------------------------------------------------------------

  /** The arrow drawn beside a comparison. */
  datatype Icon = ArrowRight | ArrowUp | ArrowDown

  /** What the card shows: the text, the CSS class that colours it, and the arrow. */
  datatype Comparison = Comparison(text: string, className: string, icon: Icon)

  const NoChangeText: string := "Sem alteração"

  /** The change from previous to current in percent of the previous value's magnitude. */
  function PercentChange(current: real, previous: real): (p: real)
    requires previous != 0.0
    ensures p > 0.0 <==> current > previous
    ensures p < 0.0 <==> current < previous
    ensures p == 0.0 <==> current == previous
  {
    var d := current - previous;
    var q := d / Abs(previous);
    assert q * Abs(previous) == d;
    q * 100.0
  }

  /**
    getComparison: equal values are "no change"; otherwise the class and the arrow follow the
    sign of the difference, and the text is the percentage change, to two decimals, with a "+"
    in front of an increase. The divisor is not guarded: a zero previous value with a
    different current value divides by zero and prints an infinity.
  */
  function GetComparison(current: real, previous: real): (r: Comparison)
    ensures r.className == "no-change" || r.className == "increase" || r.className == "decrease"
    ensures r.className == "no-change" <==> current == previous
    ensures r.className == "increase" <==> current > previous
    ensures r.className == "decrease" <==> current < previous
    ensures r.icon == ArrowRight <==> r.className == "no-change"
    ensures r.icon == ArrowUp <==> r.className == "increase"
    ensures r.icon == ArrowDown <==> r.className == "decrease"
    ensures current == previous ==> r.text == NoChangeText
  {
    if current == previous then
      Comparison(NoChangeText, "no-change", ArrowRight)
    else
      var difference := current - previous;
      LiteralFacts();
      var percentage := JsToFixed2(Times(Divide(difference, Abs(previous)), 100.0));
      Comparison(
        if difference > 0.0 then "+" + percentage + "%" else percentage + "%",
        if difference > 0.0 then "increase" else "decrease",
        if difference > 0.0 then ArrowUp else ArrowDown)
  }

  /**
    The text of a change is the percentage change to two decimals followed by "%", with a "+"
    in front of an increase; with a zero previous value it is an infinity.
  */
  lemma ComparisonText(current: real, previous: real)
    ensures var t := GetComparison(current, previous).text;
      && (previous != 0.0 && current > previous ==> t == "+" + ToFixed2(PercentChange(current, previous)) + "%")
      && (previous != 0.0 && current < previous ==> t == ToFixed2(PercentChange(current, previous)) + "%")
      && (previous == 0.0 && current > 0.0 ==> t == "+Infinity%")
      && (previous == 0.0 && current < 0.0 ==> t == "-Infinity%")
  {
    if current != previous {
      PercentQuotient(current, previous);
      LiteralFacts();
    }
  }

  lemma LiteralFacts()
    ensures "+" + "Infinity" + "%" == "+Infinity%"
    ensures "-Infinity" + "%" == "-Infinity%"
    ensures "no-change" != "increase" && "no-change" != "decrease" && "increase" != "decrease"
  {
    assert "no-change"[0] != "increase"[0] && "no-change"[0] != "decrease"[0];
    assert "increase"[0] != "decrease"[0];
  }

  /** The JavaScript value of (current - previous) / |previous| * 100 for unequal values. */
  lemma PercentQuotient(current: real, previous: real)
    requires current != previous
    ensures var q := Times(Divide(current - previous, Abs(previous)), 100.0);
      && (previous != 0.0 ==> q == Finite(PercentChange(current, previous)))
      && (previous == 0.0 && current > 0.0 ==> q == PosInfinity)
      && (previous == 0.0 && current < 0.0 ==> q == NegInfinity)
  {
  }

  /**
    Reads back a percentage text: digits of the shape toFixed(2) prints, a "%" after them,
    and for an increase a "+" in front.
  */
  function ParsePercentText(s: string): Option<real> {
    if s == [] || s[|s| - 1] != '%' then None
    else
      var body := s[..|s| - 1];
      if body != [] && body[0] == '+' then ParseFixed2(body[1..]) else ParseFixed2(body)
  }

  predicate IsPercentChar(c: char) {
    c in "+-.%0123456789"
  }

  /** Facts about the text of an increase by x percent. */
  lemma IncreaseText(x: real)
    requires x > 0.0
    ensures var t := "+" + ToFixed2(x) + "%";
      && t[0] == '+' && t[|t| - 1] == '%'
      && ParsePercentText(t) == Some(RoundTo2(x))
      && forall i :: 0 <= i < |t| ==> IsPercentChar(t[i])
  {
    var f := ToFixed2(x);
    var t := "+" + f + "%";
    ToFixed2RoundTrip(x);
    assert t[..|t| - 1] == "+" + f;
    assert ("+" + f)[1..] == f;
    FixedChars(x);
  }

  /** Facts about the text of a decrease by -x percent. */
  lemma DecreaseText(x: real)
    requires x < 0.0
    ensures var t := ToFixed2(x) + "%";
      && t[0] == '-' && t[|t| - 1] == '%'
      && ParsePercentText(t) == Some(RoundTo2(x))
      && forall i :: 0 <= i < |t| ==> IsPercentChar(t[i])
  {
    var f := ToFixed2(x);
    var t := f + "%";
    ToFixed2RoundTrip(x);
    assert t[..|t| - 1] == f;
    FixedChars(x);
  }

  lemma FixedChars(x: real)
    ensures forall i :: 0 <= i < |ToFixed2(x)| ==> IsPercentChar(ToFixed2(x)[i])
  {
    var f := ToFixed2(x);
    forall i | 0 <= i < |f|
      ensures IsPercentChar(f[i])
    {
      if i != 0 && i != |f| - 3 {
        assert IsDigit(f[i]);
      }
    }
  }

  /**
    The first character of the text tells the outcome apart: "+" for an increase, "-" for a
    decrease; a changed value's text ends in "%".
  */
  lemma ComparisonTextSign(current: real, previous: real)
    ensures var t := GetComparison(current, previous).text;
      && t != []
      && (t[0] == '+' <==> current > previous)
      && (t[0] == '-' <==> current < previous)
      && (current != previous ==> t[|t| - 1] == '%')
  {
    ComparisonText(current, previous);
    if current == previous {
      assert NoChangeText[0] == 'S';
    } else if previous == 0.0 {
      assert "+Infinity%"[0] == '+' && "-Infinity%"[0] == '-';
    } else if current > previous {
      IncreaseText(PercentChange(current, previous));
    } else {
      DecreaseText(PercentChange(current, previous));
    }
  }

  /**
    With a non-zero previous value, the text of a change reads back as the percentage
    change rounded to hundredths, so it is within 0.005 of the exact change.
  */
  lemma ComparisonTextRoundTrip(current: real, previous: real)
    requires previous != 0.0 && current != previous
    ensures ParsePercentText(GetComparison(current, previous).text)
         == Some(RoundTo2(PercentChange(current, previous)))
  {
    ComparisonText(current, previous);
    if current > previous {
      IncreaseText(PercentChange(current, previous));
    } else {
      DecreaseText(PercentChange(current, previous));
    }
  }

  /** A doubling prints "+100.00%". */
  lemma DoublingExample()
    ensures GetComparison(100.0, 50.0) == Comparison("+100.00%", "increase", ArrowUp)
  {
    DoublingText();
    FixedExamples();
    assert "+" + ToFixed2(100.0) + "%" == "+100.00%";
  }

  lemma DoublingText()
    ensures GetComparison(100.0, 50.0).text == "+" + ToFixed2(100.0) + "%"
  {
    ComparisonText(100.0, 50.0);
    assert PercentChange(100.0, 50.0) == 100.0;
  }

  /** A halving prints "-50.00%". */
  lemma HalvingExample()
    ensures GetComparison(50.0, 100.0) == Comparison("-50.00%", "decrease", ArrowDown)
  {
    HalvingText();
    FixedExamples();
    assert ToFixed2(-50.0) + "%" == "-50.00%";
  }

  lemma HalvingText()
    ensures GetComparison(50.0, 100.0).text == ToFixed2(-50.0) + "%"
  {
    ComparisonText(50.0, 100.0);
    assert PercentChange(50.0, 100.0) == -50.0;
  }

  /** Equal values print the no-change sentinel; a previous value of zero prints an infinity. */
  lemma SentinelAndInfinityExamples()
    ensures GetComparison(5.0, 5.0) == Comparison(NoChangeText, "no-change", ArrowRight)
    ensures GetComparison(5.0, 0.0) == Comparison("+Infinity%", "increase", ArrowUp)
  {
    ComparisonText(5.0, 0.0);
    var r := GetComparison(5.0, 0.0);
    assert r.text == "+Infinity%" && r.className == "increase" && r.icon == ArrowUp;
  }

  lemma FixedExamples()
    ensures ToFixed2(100.0) == "100.00"
    ensures ToFixed2(-50.0) == "-50.00"
  {
    assert Hundredths(100.0) == 10000;
    assert Hundredths(-50.0) == -5000;
    MagnitudeExamples();
  }

  lemma MagnitudeExamples()
    ensures MagnitudeText(10000) == "100.00"
    ensures MagnitudeText(5000) == "50.00"
  {
    assert NatText(10) == "10";
    assert NatText(100) == "100";
    assert NatText(50) == "50";
    assert PaddedText(0, 2) == "00";
    assert "100" + "." + "00" == "100.00";
    assert "50" + "." + "00" == "50.00";
  }

  // ---------------------------------------------------------------------------
  // The comparison with the zero divisor guarded
  // ---------------------------------------------------------------------------

  /** The three outcomes of a comparison, with the class name and arrow the card uses. */
  datatype Outcome = NoChange | Increase | Decrease {
    function ClassName(): string {
      match this
      case NoChange => "no-change"
      case Increase => "increase"
      case Decrease => "decrease"
    }

    function Arrow(): Icon {
      match this
      case NoChange => ArrowRight
      case Increase => ArrowUp
      case Decrease => ArrowDown
    }
  }

  /** The percentage part: the no-change sentinel, a signed percentage text, or undefined. */
  datatype Percentage = Sentinel | Signed(text: string) | Undefined

  datatype ComparisonResult = ComparisonResult(direction: Outcome, percentage: Percentage)

  /**
    The comparison with an explicit undefined percentage where the previous value is zero and
    the current one is not, instead of a division by zero.
  */
  function Compare(current: real, previous: real): (r: ComparisonResult)
    ensures r.direction == NoChange <==> current == previous
    ensures r.direction == Increase <==> current > previous
    ensures r.direction == Decrease <==> current < previous
    ensures r.percentage == Sentinel <==> current == previous
    ensures r.percentage == Undefined <==> previous == 0.0 && current != 0.0
    ensures r.percentage.Signed? ==>
              && previous != 0.0
              && ParsePercentText(r.percentage.text) == Some(RoundTo2(PercentChange(current, previous)))
    ensures r.percentage.Signed? ==>
              forall i :: 0 <= i < |r.percentage.text| ==> IsPercentChar(r.percentage.text[i])
  {
    if current == previous then
      ComparisonResult(NoChange, Sentinel)
    else
      var direction := if current > previous then Increase else Decrease;
      if previous == 0.0 then
        ComparisonResult(direction, Undefined)
      else
        var text := GetComparison(current, previous).text;
        ComparisonTextRoundTrip(current, previous);
        SignedTextCharacters(current, previous);
        ComparisonResult(direction, Signed(text))
  }

  lemma SignedTextCharacters(current: real, previous: real)
    requires previous != 0.0 && current != previous
    ensures var t := GetComparison(current, previous).text;
      forall i :: 0 <= i < |t| ==> IsPercentChar(t[i])
  {
    ComparisonText(current, previous);
    if current > previous {
      IncreaseText(PercentChange(current, previous));
    } else {
      DecreaseText(PercentChange(current, previous));
    }
  }

  /**
    Wherever the guarded comparison yields a percentage, it agrees with getComparison: the same
    class, the same arrow and the same text.
  */
  lemma CompareAgreesWithGetComparison(current: real, previous: real)
    ensures var r, g := Compare(current, previous), GetComparison(current, previous);
      && r.direction.ClassName() == g.className
      && r.direction.Arrow() == g.icon
      && (r.percentage.Signed? ==> r.percentage.text == g.text)
      && (r.percentage == Sentinel ==> g.text == NoChangeText)
  {
  }

  /**
    As written, a zero previous value with a non-zero current value prints "+Infinity%" or
    "-Infinity%"; the guarded comparison reports the percentage as undefined instead.
  */
  lemma ZeroPreviousPrintsInfinity(current: real)
    requires current != 0.0
    ensures GetComparison(current, 0.0).text == (if current > 0.0 then "+Infinity%" else "-Infinity%")
    ensures Compare(current, 0.0).percentage == Undefined
  {
    ComparisonText(current, 0.0);
  }

  // ---------------------------------------------------------------------------
  // Chart tooltips (tooltipFormatter)
  // ---------------------------------------------------------------------------

  /** What the formatter hands back: a label, or the value itself, unformatted. */
  datatype TooltipContent = Label(text: string) | Unformatted(value: Decimal)

  predicate IsEnergyKey(name: string) {
    name == "totalKwh" || name == "totalCompensada"
  }

  predicate IsCurrencyKey(name: string) {
    name == "totalFinance" || name == "totalEconomia"
  }

  /** Reads back "<number> kWh". */
  function ParseEnergyLabel(s: string): Option<real> {
    if 4 <= |s| && s[|s| - 4..] == " kWh" then ParseNumber(s[..|s| - 4]) else None
  }

  /** Reads back "R$ <number to two decimals>". */
  function ParseCurrencyLabel(s: string): Option<real> {
    if 3 <= |s| && s[..3] == "R$ " then ParseFixed2(s[3..]) else None
  }

  /**
    tooltipFormatter: the two energy series get "<value> kWh", the two money series get
    "R$ " and the value to two decimals, and any other series gets its value back unchanged.
  */
  function TooltipFormatter(value: Decimal, name: string): (r: TooltipContent)
    ensures r.Label? <==> IsEnergyKey(name) || IsCurrencyKey(name)
    ensures r.Unformatted? ==> r == Unformatted(value)
    ensures IsEnergyKey(name) ==> r == Label(NumberToString(value) + " kWh")
    ensures IsCurrencyKey(name) ==> r == Label("R$ " + ToFixed2(value.Value()))
    ensures IsEnergyKey(name) ==> r.Label? && ParseEnergyLabel(r.text) == Some(value.Value())
    ensures IsCurrencyKey(name) ==> r.Label? && ParseCurrencyLabel(r.text) == Some(RoundTo2(value.Value()))
  {
    match name
    case "totalKwh" => EnergyLabel(value)
    case "totalCompensada" => EnergyLabel(value)
    case "totalFinance" => CurrencyLabel(value)
    case "totalEconomia" => CurrencyLabel(value)
    case _ => Unformatted(value)
  }

  function EnergyLabel(value: Decimal): (r: TooltipContent)
    ensures r == Label(NumberToString(value) + " kWh")
    ensures ParseEnergyLabel(r.text) == Some(value.Value())
  {
    var s := NumberToString(value) + " kWh";
    assert s[..|s| - 4] == NumberToString(value);
    Label(s)
  }

  function CurrencyLabel(value: Decimal): (r: TooltipContent)
    ensures r == Label("R$ " + ToFixed2(value.Value()))
    ensures ParseCurrencyLabel(r.text) == Some(RoundTo2(value.Value()))
  {
    var s := "R$ " + ToFixed2(value.Value());
    ToFixed2RoundTrip(value.Value());
    assert s[3..] == ToFixed2(value.Value());
    Label(s)
  }

  /** A label depends only on the number, not on how the number is written. */
  lemma TooltipLabelOfEqualValues(v: Decimal, w: Decimal, name: string)
    requires v.Value() == w.Value() && (IsEnergyKey(name) || IsCurrencyKey(name))
    ensures TooltipFormatter(v, name) == TooltipFormatter(w, name)
  {
    NumberToStringOfEqualValues(v, w);
  }

  // ---------------------------------------------------------------------------
  // The series the two charts draw, and the name their tooltips are called with
  // ---------------------------------------------------------------------------

  /** A bar or line of a chart: the field it plots and the display name given to it. */
  datatype Series = Series(dataKey: string, name: string)

  /** The two bars of the energy chart and the two lines of the financial chart. */
  const ChartSeries: seq<Series> := [
    Series("totalKwh", "Consumo (kWh)"),
    Series("totalCompensada", "Compensada (kWh)"),
    Series("totalFinance", "Valor sem GD (R$)"),
    Series("totalEconomia", "Economia GD (R$)")
  ]

  /**
    The name the charting library passes to a tooltip formatter for a series: its display
    name when it has one, otherwise its data key.
  */
  function FormatterName(s: Series): string {
    if s.name != "" then s.name else s.dataKey
  }

  /**
    As the charts are configured, every series has a display name that is none of the four
    keys the formatter switches on, so each of their tooltips falls through to the default
    and shows the bare value.
  */
  lemma ConfiguredTooltipsUnformatted(value: Decimal, i: nat)
    requires i < |ChartSeries|
    ensures TooltipFormatter(value, FormatterName(ChartSeries[i])) == Unformatted(value)
  {
    var s := ChartSeries[i];
    assert s.name != "";
    assert !IsEnergyKey(s.name) && !IsCurrencyKey(s.name) by {
      assert s.name[0] != 't';
    }
  }

  /** The tooltip of a series formatted by its data key, which the switch was written for. */
  function SeriesTooltip(value: Decimal, s: Series): (r: TooltipContent)
    ensures IsEnergyKey(s.dataKey) ==> r == Label(NumberToString(value) + " kWh")
    ensures IsCurrencyKey(s.dataKey) ==> r == Label("R$ " + ToFixed2(value.Value()))
    ensures IsEnergyKey(s.dataKey) ==> r.Label? && ParseEnergyLabel(r.text) == Some(value.Value())
    ensures IsCurrencyKey(s.dataKey) ==> r.Label? && ParseCurrencyLabel(r.text) == Some(RoundTo2(value.Value()))
    ensures r.Unformatted? ==> !IsEnergyKey(s.dataKey) && !IsCurrencyKey(s.dataKey)
  {
    TooltipFormatter(value, s.dataKey)
  }

  /** Formatted by data key, every configured series gets its unit in the tooltip. */
  lemma ConfiguredTooltipsLabelled(value: Decimal, i: nat)
    requires i < |ChartSeries|
    ensures SeriesTooltip(value, ChartSeries[i]).Label?
    ensures i < 2 ==> ParseEnergyLabel(SeriesTooltip(value, ChartSeries[i]).text) == Some(value.Value())
    ensures 2 <= i ==> ParseCurrencyLabel(SeriesTooltip(value, ChartSeries[i]).text) == Some(RoundTo2(value.Value()))
  {
  }
}
