/**
  Row ingestion: the CSV export arrives as one string. Its first three
  lines (the sheet's title rows and header) are dropped; every other line
  is split on `,` and its cells are trimmed. A currency amount written
  with a decimal comma, `"R$ 1.234,56"`, is cut in two by that split;
  when cell 8 holds `R$` and cell 9 holds a digit the two halves are glued
  back together. A row is kept when it has at least 12 cells and its type
  (cell 4) and amount (cell 8) are non-empty.
 */
module Ingestao {
  import opened JsString

  /** One spreadsheet row: its cells, left to right. */
  type Row = seq<string>

  /** Number of leading lines of the export that never hold a record. */
  const HeaderLines: nat := 3

  /** `csv.split("\n")`. */
  function Lines(csv: string): seq<string>
  {
    Split(csv, '\n')
  }

  /** `csv.split("\n").slice(3)`: `slice` past the end gives the empty list. */
  function Body(csv: string): (r: seq<string>)
    ensures |Lines(csv)| >= HeaderLines ==> r == Lines(csv)[HeaderLines..]
    ensures |Lines(csv)| < HeaderLines ==> r == []
  {
    var ls := Lines(csv);
    if |ls| >= HeaderLines then ls[HeaderLines..] else []
  }

  /** `.map(p => p.trim())`. */
  function TrimAll(ps: seq<string>): seq<string>
  {
    seq(|ps|, k requires 0 <= k < |ps| => Trim(ps[k]))
  }

  /** The condition under which cells 8 and 9 are one amount split on its decimal comma. */
  predicate MergeTrigger(p: Row) {
    |p| >= 10 && Includes(p[8], "R$") && HasDigit(p[9])
  }

  /**
    `partes[8] = partes[8] + "," + partes[9]; partes.splice(9, 1)` under
    the trigger: cell 8 becomes the glued amount, cell 9 disappears, the
    cells before 8 stay and the cells after 9 move one place left.
   */
  function Merge(p: Row): (r: Row)
    ensures MergeTrigger(p) ==> |r| == |p| - 1
    ensures MergeTrigger(p) ==> r[..8] == p[..8] && r[8] == p[8] + "," + p[9] && r[9..] == p[10..]
    ensures !MergeTrigger(p) ==> r == p
  {
    if MergeTrigger(p) then
      var glued := p[8 := p[8] + "," + p[9]];
      glued[..9] + glued[10..]
    else p
  }

  /** The cells of one line, after trimming and the currency merge. */
  function Prepare(line: string): Row
  {
    Merge(TrimAll(Split(line, ',')))
  }

  /** The filter a prepared row must pass to become a record. */
  predicate Keep(p: Row) {
    |p| >= 12 && p[4] != "" && p[8] != ""
  }

  /** Every line of `lines`, prepared. */
  function PrepareAll(lines: seq<string>): (r: seq<Row>)
    ensures |r| == |lines|
  {
    seq(|lines|, k requires 0 <= k < |lines| => Prepare(lines[k]))
  }

  /**
    The prepared rows that pass the filter, in their original order. There
    are never more of them than rows.
   */
  function KeptRows(rows: seq<Row>): (r: seq<Row>)
    ensures |r| <= |rows|
    ensures forall k :: 0 <= k < |r| ==> Keep(r[k])
  {
    if rows == [] then []
    else
      var last := rows[|rows| - 1];
      KeptRows(rows[..|rows| - 1]) + (if Keep(last) then [last] else [])
  }

  /** One more row is added when it passes the filter. */
  lemma KeptRowsSnoc(rows: seq<Row>, i: nat)
    requires i < |rows|
    ensures KeptRows(rows[..i + 1]) == KeptRows(rows[..i]) + (if Keep(rows[i]) then [rows[i]] else [])
  {
    assert rows[..i + 1][..i] == rows[..i];
  }

  /** The records built from the whole export. */
  function Ingested(csv: string): seq<Row>
  {
    KeptRows(PrepareAll(Body(csv)))
  }

  /**
    The first statements of the loop body for line `i`: `partes` is built
    from that line and patched in place by the currency merge.
   */
  method PrepareLine(lines: seq<string>, i: nat) returns (partes: Row)
    requires i < |lines|
    ensures partes == PrepareAll(lines)[i]
  {
    var l := lines[i];
    partes := TrimAll(Split(l, ','));
    ghost var cells := partes;
    if |partes| >= 10 && Includes(partes[8], "R$") && HasDigit(partes[9]) {
      partes := partes[8 := partes[8] + "," + partes[9]];
      partes := partes[..9] + partes[10..];
    }
    assert MergeTrigger(cells) ==> partes == Merge(cells);
  }

  /**
    The ingestion loop of the fetch handler: every line past the header is
    prepared and pushed onto `dados` when it passes the filter.
   */
  method Ingest(csv: string) returns (dados: seq<Row>)
    ensures dados == Ingested(csv)
  {
    var linhasBrutas := Body(csv);
    ghost var prepared := PrepareAll(linhasBrutas);
    dados := [];
    var i := 0;
    while i < |linhasBrutas|
      invariant i <= |linhasBrutas|
      invariant dados == KeptRows(prepared[..i])
    {
      var partes := PrepareLine(linhasBrutas, i);
      if |partes| >= 12 && partes[4] != "" && partes[8] != "" {
        dados := dados + [partes];
      }
      KeptRowsSnoc(prepared, i);
      i := i + 1;
    }
    assert prepared[..i] == prepared;
  }

  // ---------------------------------------------------------------------
  // where each record comes from

  /** The indices of the rows that pass the filter, in increasing order. */
  function Origins(rows: seq<Row>): seq<nat>
  {
    if rows == [] then []
    else Origins(rows[..|rows| - 1]) + (if Keep(rows[|rows| - 1]) then [|rows| - 1] else [])
  }

  /**
    `KeptRows` is exactly the filter, in order: the k-th record is row
    `Origins(rows)[k]`, the origins strictly increase, and every row that
    passes the filter is one of them.
   */
  lemma {:induction false} KeptRowsOrigins(rows: seq<Row>)
    ensures |Origins(rows)| == |KeptRows(rows)|
    ensures forall k :: 0 <= k < |Origins(rows)| ==>
      Origins(rows)[k] < |rows| && KeptRows(rows)[k] == rows[Origins(rows)[k]]
    ensures forall k, m :: 0 <= k < m < |Origins(rows)| ==> Origins(rows)[k] < Origins(rows)[m]
    ensures forall i :: 0 <= i < |rows| && Keep(rows[i]) ==> i in Origins(rows)
  {
    if rows != [] {
      var n := |rows| - 1;
      var init := rows[..n];
      KeptRowsOrigins(init);
      var o, r := Origins(init), KeptRows(init);
      var o', r' := Origins(rows), KeptRows(rows);
      assert o' == o + (if Keep(rows[n]) then [n] else []);
      assert r' == r + (if Keep(rows[n]) then [rows[n]] else []);
      forall k | 0 <= k < |o'|
        ensures o'[k] < |rows| && r'[k] == rows[o'[k]]
      {
        if k < |o| {
          assert o'[k] == o[k] && r'[k] == r[k];
          assert init[o[k]] == rows[o[k]];
        }
      }
      forall i | 0 <= i < |rows| && Keep(rows[i])
        ensures i in o'
      {
        if i < n {
          assert init[i] == rows[i];
        }
      }
    }
  }

  /**
    Every record of the export comes from a line past the three header
    lines, records keep the order of their lines, and there are at most
    (line count - 3) of them.
   */
  lemma IngestedFromBody(csv: string)
    ensures |Ingested(csv)| <= if |Lines(csv)| >= HeaderLines then |Lines(csv)| - HeaderLines else 0
    ensures var o := Origins(PrepareAll(Body(csv)));
      && |o| == |Ingested(csv)|
      && (forall k :: 0 <= k < |o| ==>
            && HeaderLines <= o[k] + HeaderLines < |Lines(csv)|
            && Ingested(csv)[k] == Prepare(Lines(csv)[o[k] + HeaderLines]))
      && (forall k, m :: 0 <= k < m < |o| ==> o[k] < o[m])
  {
    var body := Body(csv);
    KeptRowsOrigins(PrepareAll(body));
    var o := Origins(PrepareAll(body));
    forall k | 0 <= k < |o|
      ensures Ingested(csv)[k] == Prepare(Lines(csv)[o[k] + HeaderLines])
    {
      assert body[o[k]] == Lines(csv)[o[k] + HeaderLines];
    }
  }

  /** A record never has fewer than 12 cells, and its type and amount cells are never empty. */
  lemma IngestedWellFormed(csv: string)
    ensures forall k :: 0 <= k < |Ingested(csv)| ==>
      |Ingested(csv)[k]| >= 12 && Ingested(csv)[k][4] != "" && Ingested(csv)[k][8] != ""
  {
  }
}
