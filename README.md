# Energy dashboard: month-over-month comparison and chart tooltips

This project models in Dafny the two pure helpers of the energy-invoice dashboard page
(`src/pages/Dashboard.tsx`), and proves properties about them:

- `getComparison(current, previous)` labels a summary card. Equal values give the
  "Sem alteração" sentinel with class `no-change` and a right arrow. Otherwise the class and
  the arrow follow the sign of `current - previous`. The text is
  `((current - previous) / Math.abs(previous) * 100).toFixed(2)` followed by `%`, with a `+`
  in front of an increase.
- `tooltipFormatter(value, name)` formats a chart tooltip. The two energy series get
  `"<value> kWh"`. The two money series get `"R$ "` followed by the value at two decimals.
  Any other name gets the value back unchanged.

The model has four modules:

- `Numerals` covers decimal digit strings and their values.
- `JsNumber` covers the JavaScript number semantics the helpers use, stated over exact real
  arithmetic:
  - `toFixed(2)` is rounding to the nearest hundredth, with halves away from zero. A `-` is
    printed whenever the argument is negative, so a tiny negative value prints `-0.00`.
  - The template-literal conversion `${value}` is the shortest positional decimal form of a
    finite number, written `Decimal(units, scale)`.
  - A division by `Math.abs(previous)` can have a zero divisor. There `x / 0` is an infinity
    and `toFixed` of an infinity prints `Infinity` or `-Infinity`.
- `Dashboard` holds the two helpers, the guarded comparison (see Findings) and the four chart
  series.
- `Wrappers` holds `Option`.

Each text the model prints has a parser next to it, and round-trip lemmas show the text
reads back as the number it stands for: the rounded percentage, the exact value, or the
value rounded to hundredths. They also show that the text depends only on the number and not
on how it is written.

## Model

| member | source | states |
|---|---|---|
| Dashboard.GetComparison | src/pages/Dashboard.tsx:63-78 | The class name is always one of `no-change`, `increase`, `decrease`. It is `no-change` iff current equals previous, `increase` iff current is greater and `decrease` iff current is smaller. The arrow is right, up or down exactly when the class is no-change, increase or decrease. Equal values give the text "Sem alteração". |
| Dashboard.PercentChange | src/pages/Dashboard.tsx:71-72 | For a non-zero previous value, the percentage change is positive iff current > previous, negative iff current < previous, and zero iff they are equal. |
| Dashboard.PercentQuotient | src/pages/Dashboard.tsx:72 | For unequal values, the JavaScript value `difference / Math.abs(previous) * 100` is finite and equals the percentage change when previous is non-zero. It is +Infinity or -Infinity when previous is zero, by the sign of current. |
| Dashboard.ComparisonText | src/pages/Dashboard.tsx:71-75 | An increase prints "+" + toFixed(2) of the percentage change + "%". A decrease prints toFixed(2) of the percentage change + "%", with no "+" added. A zero previous value prints "+Infinity%" or "-Infinity%". |
| Dashboard.IncreaseText | src/pages/Dashboard.tsx:72-74 | For a positive percentage x, the text starts with "+" and ends with "%". It reads back as x rounded to hundredths, and it uses only sign, digit, point and percent characters. |
| Dashboard.DecreaseText | src/pages/Dashboard.tsx:72-74 | For a negative percentage x, the text starts with "-" and ends with "%". It reads back as x rounded to hundredths, and it uses only sign, digit, point and percent characters. |
| Dashboard.ComparisonTextSign | src/pages/Dashboard.tsx:64-76 | The text is never empty. It starts with "+" iff current > previous and with "-" iff current < previous. It ends in "%" whenever the values differ. |
| Dashboard.ComparisonTextRoundTrip | src/pages/Dashboard.tsx:71-74 | For a non-zero previous value and a change, the text reads back as the percentage change rounded to hundredths, which is within 0.005 of the exact change. |
| Dashboard.DoublingExample | src/pages/Dashboard.tsx:70-77 | (100, 50) gives "+100.00%", class `increase` and an up arrow. |
| Dashboard.HalvingExample | src/pages/Dashboard.tsx:70-77 | (50, 100) gives "-50.00%", class `decrease` and a down arrow. |
| Dashboard.SentinelAndInfinityExamples | src/pages/Dashboard.tsx:64-77 | (5, 5) gives the no-change sentinel. (5, 0) gives "+Infinity%" with class `increase`. |
| Dashboard.FixedExamples | src/pages/Dashboard.tsx:72 | toFixed(2) of 100 is "100.00" and of -50 is "-50.00". |
| Dashboard.ZeroPreviousPrintsInfinity | src/pages/Dashboard.tsx:72 | As written, a zero previous value with a non-zero current value prints "+Infinity%" or "-Infinity%". The guarded comparison reports an undefined percentage there instead. |
| Dashboard.Compare | src/pages/Dashboard.tsx:63-78 | The guarded comparison. It gives NoChange, Increase or Decrease exactly as current equals, exceeds or is below previous. The percentage is the sentinel iff the values are equal, and undefined iff previous is zero and current is not. A signed percentage occurs only for a non-zero previous value, and its text reads back as the percentage change rounded to hundredths and uses only percentage characters. |
| Dashboard.SignedTextCharacters | src/pages/Dashboard.tsx:73-74 | For a non-zero previous value and a change, every character of the text is a sign, a digit, the point or "%". |
| Dashboard.CompareAgreesWithGetComparison | src/pages/Dashboard.tsx:63-78 | The guarded comparison has the same class and arrow as getComparison on every input. Wherever it gives a signed percentage, that is exactly getComparison's text, and its sentinel matches the "Sem alteração" text. |
| Dashboard.TooltipFormatter | src/pages/Dashboard.tsx:126-138 | A label is produced iff the name is one of the four series keys; any other name gives the value back unchanged. For `totalKwh`/`totalCompensada` the label is exactly `${value}` (NumberToString) followed by " kWh", and it reads back as exactly the value. For `totalFinance`/`totalEconomia` it is exactly "R$ " followed by `toFixed(2)` of the value (ToFixed2), and it reads back as the value rounded to hundredths. |
| Dashboard.EnergyLabel | src/pages/Dashboard.tsx:128-131 | The label is exactly NumberToString of the value followed by " kWh", and it reads back as exactly the value. |
| Dashboard.CurrencyLabel | src/pages/Dashboard.tsx:132-135 | The label is exactly "R$ " followed by ToFixed2 of the value, and it reads back as the value rounded to hundredths. |
| Dashboard.TooltipLabelOfEqualValues | src/pages/Dashboard.tsx:127-135 | For a known series key, equal numbers give the same label however they are written. |
| Dashboard.ConfiguredTooltipsUnformatted | src/pages/Dashboard.tsx:198-234 | Each of the four series configured in `ChartSeries` (two bars, two lines) has a display name that is none of the four keys. When the tooltip is called with that name, it falls through to the default and shows the bare value. |
| Dashboard.SeriesTooltip | src/pages/Dashboard.tsx:126-138 | Formatting a series by its data key gives exactly the `${value} kWh` label for an energy key and exactly the `R$ ${value.toFixed(2)}` label for a money key, each reading back as above. It leaves the value unformatted only when the key is neither. |
| Dashboard.ConfiguredTooltipsLabelled | src/pages/Dashboard.tsx:198-234 | Formatted by data key, each of the four series configured in `ChartSeries` gets a label. The two bars' labels read back as the value in kWh, and the two lines' labels read back as the value rounded to hundredths. |
| JsNumber.Abs | src/pages/Dashboard.tsx:72 | `Math.abs`: the result is non-negative and is x or -x. |
| JsNumber.Hundredths | src/pages/Dashboard.tsx:72 | The integer toFixed(2) prints is the one closest to 100·x, with halves rounded away from zero, and it has the sign of x. |
| JsNumber.RoundTo2 | src/pages/Dashboard.tsx:72 | The rounded value is within 0.005 of x and keeps its sign. |
| JsNumber.RoundTo2Idempotent | src/pages/Dashboard.tsx:72 | Rounding an already rounded value changes nothing. |
| JsNumber.ToFixed2 | src/pages/Dashboard.tsx:72 | The text has a point three characters from its end and at least one digit before the point. It starts with "-" iff x < 0, and with a digit iff x ≥ 0. Every other character is a digit. The integer part has no leading zero: a "0" after the sign is followed by the point. |
| JsNumber.MagnitudeRoundTrip | src/pages/Dashboard.tsx:72 | The unsigned text of m hundredths reads back as m / 100. |
| JsNumber.ToFixed2RoundTrip | src/pages/Dashboard.tsx:72 | toFixed(2) of x reads back as x rounded to hundredths. |
| JsNumber.Times | src/pages/Dashboard.tsx:72 | `* 100` keeps a value finite exactly when it was finite, scales a finite value by the factor and keeps its sign, and leaves an infinity or NaN as it was. |
| JsNumber.JsToFixed2 | src/pages/Dashboard.tsx:72 | `toFixed(2)` of a finite value is ToFixed2 of it and reads back as the value rounded to hundredths. +Infinity, -Infinity and NaN print "Infinity", "-Infinity" and "NaN", and those texts do not read back as a number. |
| JsNumber.Divide | src/pages/Dashboard.tsx:72 | For a positive divisor, the quotient is finite and times the divisor gives the dividend. A zero divisor gives +Infinity for a positive dividend, -Infinity for a negative one, and NaN for zero. |
| JsNumber.Normalize | src/pages/Dashboard.tsx:129 | The result is the shortest form, with no trailing zero after the point, and has the same value. |
| JsNumber.CanonicalUnique | src/pages/Dashboard.tsx:129 | Two shortest forms of the same number are identical. |
| JsNumber.NumberToStringOfEqualValues | src/pages/Dashboard.tsx:129 | `${value}` depends only on the number. |
| JsNumber.CanonicalTextRoundTrip | src/pages/Dashboard.tsx:129 | The text of a shortest form reads back as its value. |
| JsNumber.NumberToString | src/pages/Dashboard.tsx:129 | `${value}` is non-empty and starts with "-" only for a negative value, so zero prints without a sign. After the optional "-" it starts with a digit. The integer part has no leading zero: a "0" there is followed by the point or ends the text. If the text contains a point, its last character is not "0". The text reads back as exactly the value. |
| JsNumber.NumberToStringInjective | src/pages/Dashboard.tsx:129 | Two numbers give the same `${value}` text iff they are equal. |

## Left out

- The `Dashboard` and `DashboardCard` React components are not modelled: their state, their effects, the `fetchDashboardData` call and the chart rendering are UI and asynchronous I/O. The values the helpers receive are parameters.
- `src/services/api.ts`, `src/pages/InvoiceLibrary.tsx`, `src/components/Sidebar.tsx` and `src/App.tsx` are not part of this model. They are HTTP calls, routing and markup.
- Invoice aggregation by year and month, the consumer-unit pivot and the download gating are not modelled. The page receives pre-aggregated data from the server, and none of that logic is in this code.
- Numbers are exact reals, not IEEE-754 doubles. So rounding error in the subtraction, division and multiplication is not modelled, and neither is how `toFixed` rounds a double that lies just below a half. Negative zero is not modelled either.
- NaN and infinite card values and tooltip values are not modelled. The inputs are finite.
- JsNumber.NumberToString: works on the decimal a value is written as, read as an exact real, not on the binary value of a double. JavaScript prints the shortest digits that read back as the same double, so the two texts agree only for values the model takes to be exact.
- JsNumber.NumberToString: does not model exponent notation, which JavaScript uses for magnitudes below 1e-6 or of 1e21 and above. Every number prints in positional form.
- JsNumber.ToFixed2: does not model the exponent form `toFixed` falls back to for magnitudes of 1e21 and above.
- The icon is reduced to which arrow is drawn. Its `comparison-icon` CSS class is the same for all three arrows.
- The charting library is not part of this model. `Dashboard.FormatterName` encodes the name it hands to a tooltip formatter: the series' display name when set, otherwise its data key.
- The zero-previous-value case: the comparison's intended behaviour is an explicit "undefined percentage" outcome, while the code divides by zero and prints an infinity. `Dashboard.GetComparison` follows the code, and the intended behaviour is the corrected `Dashboard.Compare` (see Findings).

## Findings

| source | as written | input that shows it | evidently intended | confidence | as-written member | corrected member |
|---|---|---|---|---|---|---|
| src/pages/Dashboard.tsx:72 | The difference is divided by `Math.abs(previous)` with no guard for zero. | current 5, previous 0: the text is "+Infinity%" with class `increase` | A distinct undefined percentage, neither an infinity nor NaN text | not executed; high | Dashboard.ZeroPreviousPrintsInfinity | Dashboard.Compare |
| src/pages/Dashboard.tsx:126-138 | The switch matches the data keys `totalKwh`, `totalCompensada`, `totalFinance`, `totalEconomia`, but every series is given a display name (lines 200-201, 220, 229), and the tooltip is called with that name | hovering the "Consumo (kWh)" bar: the formatter receives "Consumo (kWh)" and shows the bare value without "kWh" | Format by the series' data key, so every configured series shows its unit | not executed; medium (depends on the charting library passing the display name) | Dashboard.ConfiguredTooltipsUnformatted | Dashboard.SeriesTooltip |
