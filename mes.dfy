/**
  `formatMes`: the month label of a date cell. The first `dd/mm/yyyy`
  occurrence in the cell is located, its month digits are read as a
  number, and months 1 to 12 become a Portuguese abbreviation; any other
  month (`00`, `13` to `99`) is shown as its raw two digits. A cell with no
  date has no month (`null`).
 */
module Mes {
  import opened Wrappers
  import opened JsString
  import Valor

  /** A `\d{2}\/\d{2}\/\d{4}` match starts at index `i` of `s`. */
  predicate DateAt(s: string, i: int) {
    && 0 <= i && i + 10 <= |s|
    && IsDigit(s[i]) && IsDigit(s[i + 1]) && s[i + 2] == '/'
    && IsDigit(s[i + 3]) && IsDigit(s[i + 4]) && s[i + 5] == '/'
    && IsDigit(s[i + 6]) && IsDigit(s[i + 7]) && IsDigit(s[i + 8]) && IsDigit(s[i + 9])
  }

  /** `i` is where `s.match(...)` reports its match: the leftmost one. */
  predicate FirstDateAt(s: string, i: int) {
    DateAt(s, i) && forall j :: 0 <= j < i ==> !DateAt(s, j)
  }

  /** The leftmost match at or after `from`, scanning as the regular expression engine does. */
  function FindDate(s: string, from: nat): (r: Option<nat>)
    ensures r.Some? ==> from <= r.value && DateAt(s, r.value)
    decreases |s| - from
  {
    if from + 10 > |s| then None
    else if DateAt(s, from) then Some(from)
    else FindDate(s, from + 1)
  }

  /** The scan finds no match exactly when there is none, and otherwise the leftmost one. */
  lemma {:induction false} FindDateSpec(s: string, from: nat)
    ensures FindDate(s, from).None? <==> forall i :: from <= i < |s| ==> !DateAt(s, i)
    ensures FindDate(s, from).Some? ==>
      var i := FindDate(s, from).value;
      from <= i && DateAt(s, i) && forall j :: from <= j < i ==> !DateAt(s, j)
    decreases |s| - from
  {
    if from + 10 <= |s| && !DateAt(s, from) {
      FindDateSpec(s, from + 1);
    }
  }

  /** `match[0].split("/")` of a matched date is `[dia, mes, ano]`. */
  lemma DateSplit(m: string)
    requires |m| == 10 && DateAt(m, 0)
    ensures Split(m, '/') == [m[..2], m[3..5], m[6..]]
  {
    var parts := [m[..2], m[3..5], m[6..]];
    assert Join(parts[2..], '/') == m[6..];
    assert Join(parts[1..], '/') == m[3..5] + "/" + m[6..];
    assert Join(parts, '/') == m;
    SplitJoin(parts, '/');
  }

  /** The month abbreviations; index 0 holds the empty string, which JavaScript treats as false. */
  const Nomes: seq<string> :=
    ["", "Jan.", "Fev.", "Mar.", "Abr.", "Mai.", "Jun.", "Jul.", "Ago.", "Set.", "Out.", "Nov.", "Dez."]

  /** The label of the group `porMes` keeps for grand totals. */
  const TotalGeral: string := "Total Geral"

  predicate TwoDigits(mes: string) {
    |mes| == 2 && Valor.AllDigits(mes)
  }

  /**
    `nomes[parseInt(mes)] || mes`: months 1 to 12 get their abbreviation;
    month 0 hits the empty entry and months past 12 hit `undefined`, and
    both fall back to the raw two digits.
   */
  function MonthLabel(mes: string): (r: string)
    requires TwoDigits(mes)
    ensures 1 <= Valor.DigitsValue(mes) <= 12 ==> r == Nomes[Valor.DigitsValue(mes)]
    ensures Valor.DigitsValue(mes) == 0 || Valor.DigitsValue(mes) > 12 ==> r == mes
    ensures |r| >= 2
  {
    var n := Valor.DigitsValue(mes);
    var name := if n < |Nomes| then Nomes[n] else "";   // "" stands for undefined
    if name != "" then name else mes
  }

  /**
    `formatMes(data)`: the label of the month digits of the leftmost date,
    `None` for null when there is no date.
   */
  function FormatMes(data: string): Option<string>
  {
    match FindDate(data, 0)
    case None => None
    case Some(i) => Some(MonthLabel(data[i + 3..i + 5]))
  }

  /** The month digits are the middle piece of the matched date split on `/`, as `formatMes` takes them. */
  lemma FormatMesSplit(data: string)
    ensures FormatMes(data).Some? ==>
      var m := data[FindDate(data, 0).value..FindDate(data, 0).value + 10];
      && |Split(m, '/')| == 3 && TwoDigits(Split(m, '/')[1])
      && FormatMes(data).value == MonthLabel(Split(m, '/')[1])
  {
    match FindDate(data, 0)
    case None =>
    case Some(i) =>
      var m := data[i..i + 10];
      DateSplit(m);
      assert m[3..5] == data[i + 3..i + 5];
  }

  /**
    `formatMes` returns null exactly when the cell holds no `dd/mm/yyyy`;
    otherwise it labels the month digits of the leftmost date.
   */
  lemma FormatMesSpec(data: string)
    ensures FormatMes(data).None? <==> forall i :: 0 <= i < |data| ==> !DateAt(data, i)
    ensures FormatMes(data).Some? ==>
      exists i :: FirstDateAt(data, i) && FormatMes(data).value == MonthLabel(data[i + 3..i + 5])
  {
    FindDateSpec(data, 0);
    match FindDate(data, 0)
    case None =>
    case Some(i) =>
      assert FirstDateAt(data, i);
  }

  /** The twelve abbreviations are pairwise different. */
  lemma NomesDistinct(i: nat, j: nat)
    requires 1 <= i < j < |Nomes|
    ensures Nomes[i] != Nomes[j]
  {
    var a, b := Nomes[i], Nomes[j];
    assert (a[0], a[1], a[2]) != (b[0], b[1], b[2]);
  }

  /** Distinct months get distinct labels, so grouping by label is grouping by month. */
  lemma MonthLabelInjective(a: string, b: string)
    requires TwoDigits(a) && TwoDigits(b)
    requires MonthLabel(a) == MonthLabel(b)
    ensures a == b
  {
    var na, nb := Valor.DigitsValue(a), Valor.DigitsValue(b);
    if 1 <= na <= 12 && 1 <= nb <= 12 {
      if na < nb {
        NomesDistinct(na, nb);
      } else if nb < na {
        NomesDistinct(nb, na);
      }
    }
    Valor.TwoDigitsValue(a);
    Valor.TwoDigitsValue(b);
    assert a == [a[0], a[1]] && b == [b[0], b[1]];
  }

  /** No month label is the grand-total label, so the total entry never merges with a month. */
  lemma MonthLabelNotTotal(data: string)
    ensures FormatMes(data) != Some(TotalGeral)
  {
    match FindDate(data, 0)
    case None =>
    case Some(i) =>
      var mes := data[i + 3..i + 5];
      if 1 <= Valor.DigitsValue(mes) <= 12 {
        assert |MonthLabel(mes)| == 4;
      } else {
        assert |MonthLabel(mes)| == 2;
      }
  }
}
