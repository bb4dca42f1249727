# Financial dashboard: ingestion and aggregation, modelled in Dafny

The dashboard downloads a Google Sheets export of personal transactions as
CSV text and turns it into summary tables for its charts. This project
models that pipeline from the CSV text to the summary object. The pipeline
lives in `src/DashboardFinanceiraCompleta.jsx` and has four parts.

- **Row ingestion** (module `Ingestao`). The first three lines are
  dropped. Every other line is split on `,` and each cell is trimmed. A
  currency amount `"R$ 1.234,56"` is cut in two by its decimal comma, and
  the two cells are glued back together. A row is kept when it has at
  least 12 cells and non-empty type and amount cells. This is an imperative
  loop (`Ingestao.Ingest`). It is proved equal to the reference function
  `Ingestao.Ingested`.
- **`parseValor`** (module `Valor`, function `Valor.ParseValor`). It reads
  a currency cell as a number. `Valor.Normalize` first reduces the cell to
  digits, `,` and `-` and turns the first `,` into the decimal point. Then
  `Valor.ParseFloat` reads the longest number prefix, and NaN becomes 0.
- **`formatMes`** (module `Mes`, function `Mes.FormatMes`). It gives the
  month label of a date cell: a Portuguese abbreviation for months 01 to
  12, the raw digits otherwise, and no label (`None`) when the cell has no
  `dd/mm/yyyy`.
- **The `totais` aggregation** (module `Agregacao`). One `forEach` pass
  builds five things:
  - the income and expense totals;
  - the expenses per subgroup;
  - the expenses per payment method;
  - the income and expenses per month.

  The pass then adds the balance and a closing "Total Geral" month entry.
  The pass is an imperative loop (`Agregacao.Aggregate`, one step per record
  in `Agregacao.Visit`). It is proved equal to the reference function
  `Agregacao.TotaisOf`.

The JavaScript built-ins the code relies on are modelled in `JsString` and
`Valor`. Each follows JavaScript's semantics on the inputs that reach it
here:
- `split` with a one-character separator always returns at least one piece;
- `trim` removes the ECMAScript whitespace and line terminators;
- `replace` with a one-character string pattern replaces only the first
  occurrence;
- `parseFloat` reads the longest numeric prefix of a text made of digits,
  `,`, `-` and `.`, as an exact real number (see "## Left out").

JavaScript objects used as dictionaries become lists of `{name, value}`
entries with distinct keys, kept in insertion order. Amounts are exact
`real` numbers.

## Model

| member | source | states |
|---|---|---|
| JsString.SplitSpec | src/DashboardFinanceiraCompleta.jsx:67 | no piece of `split(sep)` contains the separator, and joining the pieces with it gives back the original text |
| JsString.SplitJoin | src/DashboardFinanceiraCompleta.jsx:71 | the other half of the round trip: separator-free pieces, joined and split again, come back unchanged |
| JsString.TrimStartSpec | src/DashboardFinanceiraCompleta.jsx:71 | trimming the start keeps a suffix, removes only whitespace, and leaves no leading whitespace |
| JsString.TrimEndSpec | src/DashboardFinanceiraCompleta.jsx:71 | trimming the end keeps a prefix, removes only whitespace, and leaves no trailing whitespace |
| JsString.TrimSlice | src/DashboardFinanceiraCompleta.jsx:71 | `trim` keeps one contiguous slice of the cell; everything cut before and after it is whitespace; the slice has whitespace at neither end |
| JsString.TrimIdempotent | src/DashboardFinanceiraCompleta.jsx:93-95 | re-trimming a trimmed cell changes nothing, so the second `trim` of the type, subgroup and bank cells in the aggregation is harmless |
| Valor.Clean | src/DashboardFinanceiraCompleta.jsx:39 | the cleaned cell is no longer than the cell and holds only digits, `,` and `-` |
| Valor.CleanFrom | src/DashboardFinanceiraCompleta.jsx:39 | every character the cleaning keeps was in the cell |
| Valor.CleanKeeps | src/DashboardFinanceiraCompleta.jsx:39 | a string made only of digits, `,` and `-` survives cleaning unchanged |
| Valor.CleanDrops | src/DashboardFinanceiraCompleta.jsx:39 | a string with none of those characters cleans to the empty string |
| Valor.CleanAppend | src/DashboardFinanceiraCompleta.jsx:39 | cleaning a concatenation cleans each part |
| Valor.IndexOf | src/DashboardFinanceiraCompleta.jsx:39 | gives the first position of the character, or the length when the character does not occur, and no earlier position holds it |
| Valor.ReplaceFirst | src/DashboardFinanceiraCompleta.jsx:39 | a one-character string pattern replaces only the first occurrence; the text before and after is kept; a text without the character is unchanged |
| Valor.DotReplaceIsNoOp | src/DashboardFinanceiraCompleta.jsx:39 | the `.replace(".", "")` step never changes anything, because no dot survives the cleaning |
| Valor.ParseFloat | src/DashboardFinanceiraCompleta.jsx:39-40 | a number is read exactly when the text, after an optional minus sign, starts with a digit or with a point and a digit (otherwise NaN); it is not negative without a leading minus and not positive with one |
| Valor.NormalizeAlphabet | src/DashboardFinanceiraCompleta.jsx:39 | the text handed to `parseFloat` holds only digits, `,`, `-` and `.` |
| Valor.ParseValorNaNIsZero | src/DashboardFinanceiraCompleta.jsx:40 | when `parseFloat` finds no number, `parseValor` returns 0; an empty cell is one such case |
| Valor.NoDigitNoNumber | src/DashboardFinanceiraCompleta.jsx:38-40 | a cell without any digit normalizes to a text from which `parseFloat` reads no number |
| Valor.ParseValorNeedsDigit | src/DashboardFinanceiraCompleta.jsx:38-41 | only a cell that contains a digit can be worth something other than 0 |
| Valor.ParseFloatDecimal | src/DashboardFinanceiraCompleta.jsx:39 | `parseFloat("-d.f")` and `parseFloat("d.f")` read exactly the signed decimal number spelled out |
| Valor.NormalizeDecimalComma | src/DashboardFinanceiraCompleta.jsx:39 | a cleaned cell `sign digits,digits` is handed to `parseFloat` as `sign digits.digits` |
| Valor.CleanGrouped | src/DashboardFinanceiraCompleta.jsx:39 | cleaning a numeral with thousands dots (`1.234.567`) leaves a digit string denoting the same number |
| Valor.CleanBrl | src/DashboardFinanceiraCompleta.jsx:39 | cleaning a currency cell keeps exactly its sign, its whole digits, its comma and its two cents digits |
| Valor.ParseValorBrl | src/DashboardFinanceiraCompleta.jsx:38-41 | round trip: `parseValor` reads a currency cell `"R$ 1.234,56"` (quotes included, with an optional minus) back as exactly the amount it shows, cents included |
| Valor.ParseFloatWholePrefix | src/DashboardFinanceiraCompleta.jsx:39 | `parseFloat` reads the longest whole-number prefix: `sign digits rest` is the signed value of the digits when `rest` starts with neither a digit nor a point (`"5-3"` reads 5) |
| Valor.ParseFloatDecimalPrefix | src/DashboardFinanceiraCompleta.jsx:39 | `parseFloat` reads the longest decimal prefix: `sign d.f rest` is the signed value of `d.f` when `rest` does not start with a digit (`"1.2,3"` reads 1.2) |
| Valor.NormalizeNoComma | src/DashboardFinanceiraCompleta.jsx:39 | a cleaned cell without a comma reaches `parseFloat` unchanged |
| Valor.CleanBrlWhole | src/DashboardFinanceiraCompleta.jsx:39 | cleaning a currency cell without cents keeps exactly its sign and the digits of its amount |
| Valor.ParseValorBrlWhole | src/DashboardFinanceiraCompleta.jsx:38-41 | round trip: `parseValor` reads a currency cell without a decimal comma (`"R$ 1.234"`, `"-R$ 50"`) back as exactly its whole amount |
| Valor.DigitsValueAppend | src/DashboardFinanceiraCompleta.jsx:39 | the value of a concatenation of digit strings is the first value shifted by the length of the second, plus the second value |
| Valor.FracTwoDigits | src/DashboardFinanceiraCompleta.jsx:39 | two fraction digits read by `parseFloat` are hundredths |
| Mes.FindDateSpec | src/DashboardFinanceiraCompleta.jsx:44 | the scan finds no date exactly when the cell holds no `\d{2}/\d{2}/\d{4}`; otherwise it finds the leftmost one |
| Mes.FormatMesSpec | src/DashboardFinanceiraCompleta.jsx:43-46 | `formatMes` returns null exactly when the cell holds no date; otherwise it labels the month digits of the leftmost date |
| Mes.FormatMesSplit | src/DashboardFinanceiraCompleta.jsx:46 | splitting the matched date on `/` gives three pieces; the middle piece is two digits and is the month that gets labelled |
| Mes.DateSplit | src/DashboardFinanceiraCompleta.jsx:46 | a matched `dd/mm/yyyy` splits on `/` into day, month and year |
| Mes.MonthLabel | src/DashboardFinanceiraCompleta.jsx:47-48 | months 01 to 12 get `nomes[m]`; month 00 (the empty entry) and months 13 to 99 (`undefined`) fall back to the raw two digits; a label always has at least two characters, so it is never the falsy empty string that `if (mes)` (line 107) would skip |
| Mes.NomesDistinct | src/DashboardFinanceiraCompleta.jsx:47 | the twelve month abbreviations are pairwise different |
| Mes.MonthLabelInjective | src/DashboardFinanceiraCompleta.jsx:47-48 | different month digits get different labels, so grouping by label is grouping by month |
| Mes.MonthLabelNotTotal | src/DashboardFinanceiraCompleta.jsx:114-118 | no cell gets the label "Total Geral", so the grand-total entry never merges with a month |
| Ingestao.Merge | src/DashboardFinanceiraCompleta.jsx:72-75 | under the trigger (at least 10 cells, cell 8 contains `R$`, cell 9 contains a digit), cell 8 becomes `cell8 + "," + cell9`, the row loses exactly one cell, cells 0 to 7 stay and the cells after 9 move one place left; otherwise the row is unchanged |
| Ingestao.PrepareLine | src/DashboardFinanceiraCompleta.jsx:71-75 | the in-place patch of `partes` by index assignment and `splice` builds exactly the prepared row |
| Ingestao.KeptRows | src/DashboardFinanceiraCompleta.jsx:76-78 | the kept rows are never more than the rows, and every one passes the filter |
| Ingestao.Ingest | src/DashboardFinanceiraCompleta.jsx:67-79 | the loop with its `push`es returns exactly the reference ingestion of the CSV text |
| Ingestao.KeptRowsOrigins | src/DashboardFinanceiraCompleta.jsx:76-78 | the k-th kept row is the row at the k-th origin; the origins strictly increase; every row passing the filter is among them |
| Ingestao.IngestedFromBody | src/DashboardFinanceiraCompleta.jsx:67-79 | every record comes from a line past the first three; records keep line order; there are at most (line count - 3) of them |
| Ingestao.IngestedWellFormed | src/DashboardFinanceiraCompleta.jsx:76 | every record has at least 12 cells, and its type and amount cells are non-empty |
| Agregacao.TotalAppend | src/DashboardFinanceiraCompleta.jsx:99-100 | the income and expense totals are additive over runs of records |
| Agregacao.TotalPermutation | src/DashboardFinanceiraCompleta.jsx:99-100 | any reordering of the records (equal multisets) leaves the income and expense totals unchanged |
| Agregacao.TotalRemove | src/DashboardFinanceiraCompleta.jsx:99-100 | removing one record from anywhere in the list removes exactly its share from the total of each kind |
| Agregacao.Summarize | src/DashboardFinanceiraCompleta.jsx:114-127 | the balance is 645.81 plus income minus expenses, and the month list ends with `{mes: "Total Geral", Renda: renda, Despesas: despesa}` |
| Agregacao.Visit | src/DashboardFinanceiraCompleta.jsx:92-111 | the `forEach` callback turns the accumulators of the first i records into those of the first i + 1 |
| Agregacao.Aggregate | src/DashboardFinanceiraCompleta.jsx:86-128 | the `useMemo` computation returns exactly the reference aggregation of the records |
| Agregacao.BumpNames | src/DashboardFinanceiraCompleta.jsx:103-104 | `d[k] = (d[k] \|\| 0) + v` keeps the keys and appends `k` when it is new |
| Agregacao.BumpLookup | src/DashboardFinanceiraCompleta.jsx:103-104 | the update adds `v` under `k` and changes no other key |
| Agregacao.BumpSum | src/DashboardFinanceiraCompleta.jsx:103-104 | the update adds `v` to the sum of all values |
| Agregacao.BumpDistinct | src/DashboardFinanceiraCompleta.jsx:103-104 | the update keeps the keys distinct |
| Agregacao.BumpMesColumn | src/DashboardFinanceiraCompleta.jsx:108-110 | seen one column at a time, `porMes[mes] = porMes[mes] \|\| {...}` followed by the two `+=` is the same dictionary update |
| Agregacao.BreakdownDistinct | src/DashboardFinanceiraCompleta.jsx:102-105 | `porSubgrupo` and `porBanco` never hold the same key twice |
| Agregacao.BreakdownKeys | src/DashboardFinanceiraCompleta.jsx:102-105 | a key is in the breakdown exactly when some expense record carries it |
| Agregacao.BreakdownLookup | src/DashboardFinanceiraCompleta.jsx:102-105 | the value under a key is the sum of the amounts of the expense records carrying that key |
| Agregacao.BreakdownSum | src/DashboardFinanceiraCompleta.jsx:124-125 | the values of each breakdown add up to the expense total |
| Agregacao.MonthsColumnStep | src/DashboardFinanceiraCompleta.jsx:107-111 | one more dated record bumps its month by its share of each kind; an undated record changes nothing |
| Agregacao.MonthsDistinct | src/DashboardFinanceiraCompleta.jsx:107-111 | no month has two entries |
| Agregacao.MonthsKeys | src/DashboardFinanceiraCompleta.jsx:107-108 | a month has an entry exactly when some record is dated in it, whatever the record's type (so the entry may hold zero sums) |
| Agregacao.MonthsLookup | src/DashboardFinanceiraCompleta.jsx:109-110 | each month entry holds that month's income and expense sums |
| Agregacao.MonthsSum | src/DashboardFinanceiraCompleta.jsx:107-111 | the month entries plus the undated records add up to the income and expense totals |
| Agregacao.ColumnNamesAt | src/DashboardFinanceiraCompleta.jsx:126 | the names of a column are the months of the list, position by position |
| Agregacao.TotalGeralEntry | src/DashboardFinanceiraCompleta.jsx:114-126 | `porMes` ends with the entry of the grand totals, and no month entry before it carries that label |
| Agregacao.IngestedReadable | src/DashboardFinanceiraCompleta.jsx:76-97 | every record ingestion produces has the cells the aggregation reads |

## Left out

- The `fetch` call, its status check and the error capture (lines 60-65 and 81-83): network I/O. The CSV text is the input of `Ingestao.Ingest`.
- React state, `useEffect`, `useMemo` memoisation and the JSX rendering (lines 56-57 and 130 onwards): UI plumbing. The memoised computation is `Agregacao.Aggregate`.
- `formatReal` (lines 51-53): a thin wrapper over the locale-dependent `toLocaleString`.
- IEEE double arithmetic: `parseFloat` and the `+=` sums are exact over `real`. Rounding, `-0`, `Infinity` and `NaN` sums are not modelled.
- Valor.ParseFloat: faithful only on texts made of digits, `,`, `-` and `.`. It does not model leading whitespace, `+`, exponents or `Infinity`, because `Valor.NormalizeAlphabet` shows that no other text reaches it from `parseValor`.
- Agregacao.Aggregate: requires every record to have at least 9 cells. With fewer, `linha[8]` or `linha[2]` is `undefined`, and `parseValor` or `formatMes` would throw. That error path is not modelled. `Agregacao.IngestedReadable` shows that ingestion never produces such a record.
- Agregacao.Visit: assumes that the `?.` of `linha[4]?.trim()`, `linha[5]?.trim()` and `linha[7]?.trim()` never meets `undefined`. This holds for records of at least 9 cells. The `undefined` key is not modelled.
- JavaScript key order of plain objects: `Object.entries` and `Object.values` list integer-like keys (such as the month labels `"13"` to `"99"`, or a numeric subgroup name) first, in numeric order. The model keeps every key in insertion order.
- Keys inherited from `Object.prototype` (a subgroup named `constructor`, say): `d[k] || 0` would then read an inherited value. The model treats every key as absent until it is set.
- The colour and logo constants (lines 21-34) and the spreadsheet URL (line 36): data only.
- `src/main.jsx`, `src/components/ui/tabs.jsx`, `src/components/ui/card.jsx` and `src/components/ui/progress.jsx`: mount code and presentational wrappers, not part of this model.
