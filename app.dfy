/** The logic of the src/App.jsx upload handler: choosing the message column from the
    header row, collecting the first date/time stamp of every cell, the component's own
    variant of the segmenter, the index-aligned date overlay, and the export file name. */
module App {
  import opened Wrappers
  import opened Chars
  import opened Text
  import opened Patterns
  import opened Extractor
  import opened Segmenter

  // ---------------------------------------------------------------------------
  // Message column
  // ---------------------------------------------------------------------------

  /** `Array.prototype.findIndex`: the first position whose element satisfies `p`, or -1. */
  function FindIndex(s: seq<string>, p: string -> bool): (r: int)
    ensures -1 <= r < |s|
    ensures r >= 0 ==> p(s[r]) && forall j :: 0 <= j < r ==> !p(s[j])
    ensures r == -1 ==> forall j :: 0 <= j < |s| ==> !p(s[j])
  {
    if s == [] then -1
    else if p(s[0]) then 0
    else
      var r := FindIndex(s[1..], p);
      if r == -1 then -1 else r + 1
  }

  /** The header row, every cell trimmed. */
  function Headers(header: Row): (hs: seq<string>)
    ensures |hs| == |header|
    ensures forall k :: 0 <= k < |header| ==> hs[k] == Trim(header[k])
  {
    seq(|header|, k requires 0 <= k < |header| => Trim(header[k]))
  }

  /** The message column the handler settles on. */
  function MessageColumn(hs: seq<string>): (c: nat)
    ensures (exists k :: 0 <= k < |hs| && HasMessageText(hs[k])) ==>
      c < |hs| && HasMessageText(hs[c]) && forall j :: 0 <= j < c ==> !HasMessageText(hs[j])
    ensures (forall k :: 0 <= k < |hs| ==> !HasMessageText(hs[k])) && (exists k :: 0 <= k < |hs| && HasText(hs[k])) ==>
      c < |hs| && HasText(hs[c]) && forall j :: 0 <= j < c ==> !HasText(hs[j])
    ensures (forall k :: 0 <= k < |hs| ==> !HasMessageText(hs[k]) && !HasText(hs[k])) ==> c == 0
  {
    var a := FindIndex(hs, HasMessageText);
    if a != -1 then a
    else
      var b := FindIndex(hs, HasText);
      if b != -1 then b else 0
  }

  /** A header matching `message\s*text` also matches `text`, so the fallback to
      column 0 happens exactly when no header mentions "text" at all. */
  lemma MessageColumnFallback(hs: seq<string>)
    ensures (forall k :: 0 <= k < |hs| ==> !HasText(hs[k])) ==> MessageColumn(hs) == 0
    ensures (exists k :: 0 <= k < |hs| && HasText(hs[k])) ==> MessageColumn(hs) < |hs| && HasText(hs[MessageColumn(hs)])
  {
    if forall k :: 0 <= k < |hs| ==> !HasText(hs[k]) {
      forall k | 0 <= k < |hs| ensures !HasMessageText(hs[k]) {
        if HasMessageText(hs[k]) {
          MessageTextHasText(hs[k]);
        }
      }
    }
    var c := MessageColumn(hs);
    if (exists k :: 0 <= k < |hs| && HasText(hs[k])) && exists k :: 0 <= k < |hs| && HasMessageText(hs[k]) {
      MessageTextHasText(hs[c]);
    }
  }

  // ---------------------------------------------------------------------------
  // The first stamp of every cell
  // ---------------------------------------------------------------------------

  /** What one cell contributes to `allDates`: its first stamp, if any. */
  function CellMatch(cell: string): (r: seq<string>)
    ensures |r| <= 1
    ensures forall k :: 0 <= k < |r| ==> FirstDate(cell) == Some(r[k])
  {
    match FirstDate(cell)
    case Some(d) => [d]
    case None => []
  }

  /** The pieces `f` gives for the elements of `s`, concatenated in order. */
  function Concat<A>(s: seq<A>, f: A -> seq<string>): seq<string>
  {
    if s == [] then [] else Concat(s[..|s| - 1], f) + f(s[|s| - 1])
  }

  /** The stamps of a row's cells, in cell order. */
  function RowMatches(row: Row): seq<string>
  {
    Concat(row, CellMatch)
  }

  /** The stamps of all cells, in row-major order. */
  function AllDates(rows: seq<Row>): seq<string>
  {
    Concat(rows, RowMatches)
  }

  lemma ConcatSnoc<A>(s: seq<A>, init: seq<A>, x: A, f: A -> seq<string>)
    requires s == init + [x]
    ensures Concat(s, f) == Concat(init, f) + f(x)
  {
    assert s[..|s| - 1] == init;
  }

  /** What a cell contributes, given its first stamp. */
  lemma CellMatchOf(cell: string, found: Option<string>)
    requires found == FirstDate(cell)
    ensures CellMatch(cell) == (if found.Some? then [found.value] else [])
  {
  }

  /** One more element of a prefix adds its pieces at the end. */
  lemma ConcatPrefix<A>(s: seq<A>, i: nat, f: A -> seq<string>)
    requires i < |s|
    ensures Concat(s[..i + 1], f) == Concat(s[..i], f) + f(s[i])
  {
    ConcatSnoc(s[..i + 1], s[..i], s[i], f);
  }

  /** The outer loop filling `allDates`, over every row including the header. */
  method CollectDates(rows: seq<Row>) returns (allDates: seq<string>)
    ensures allDates == AllDates(rows)
  {
    allDates := [];
    var i := 0;
    while i < |rows|
      invariant 0 <= i <= |rows|
      invariant allDates == AllDates(rows[..i])
    {
      allDates := CollectRowDates(allDates, rows[i]);
      ConcatPrefix(rows, i, RowMatches);
      i := i + 1;
    }
    assert rows[..i] == rows;
  }

  /** The inner loop: every cell's first stamp, if it has one, pushed in cell order. */
  method CollectRowDates(before: seq<string>, row: Row) returns (allDates: seq<string>)
    ensures allDates == before + RowMatches(row)
  {
    allDates := before;
    var j := 0;
    while j < |row|
      invariant 0 <= j <= |row|
      invariant allDates == before + RowMatches(row[..j])
    {
      ConcatPrefix(row, j, CellMatch);
      var found := FirstDate(row[j]);
      CellMatchOf(row[j], found);
      if found.Some? {
        allDates := allDates + [found.value];
      }
      j := j + 1;
    }
    assert row[..j] == row;
  }

  lemma {:induction false} ConcatAppend<A>(a: seq<A>, b: seq<A>, f: A -> seq<string>)
    ensures Concat(a + b, f) == Concat(a, f) + Concat(b, f)
    decreases |b|
  {
    if b == [] {
      assert a + b == a;
    } else {
      var b', last := b[..|b| - 1], b[|b| - 1];
      assert b == b' + [last];
      assert a + b == (a + b') + [last];
      ConcatAppend(a, b', f);
      ConcatSnoc(a + b, a + b', last, f);
      ConcatSnoc(b, b', last, f);
    }
  }

  lemma ConcatOne<A>(x: A, f: A -> seq<string>)
    ensures Concat([x], f) == f(x)
  {
    assert [x][..0] == [];
  }

  /** The scan runs row by row and, within a row, cell by cell: the stamps of
      two stacked sheets are those of the first followed by those of the second,
      and those of a row split in two are those of its left part followed by
      those of its right part. */
  lemma AllDatesAppend(a: seq<Row>, b: seq<Row>, left: Row, right: Row)
    ensures AllDates(a + b) == AllDates(a) + AllDates(b)
    ensures RowMatches(left + right) == RowMatches(left) + RowMatches(right)
  {
    ConcatAppend(a, b, RowMatches);
    ConcatAppend(left, right, CellMatch);
  }

  /** A one-row sheet yields that row's stamps, and a one-cell row that cell's
      first stamp, if it has one. */
  lemma AllDatesSingle(row: Row, cell: string)
    ensures AllDates([row]) == RowMatches(row)
    ensures RowMatches([cell]) == (match FirstDate(cell) case Some(d) => [d] case None => [])
  {
    ConcatOne(row, RowMatches);
    ConcatOne(cell, CellMatch);
  }

  /** A concatenation of pieces of length at most one per element. */
  lemma {:induction false} ConcatBound<A>(s: seq<A>, f: A -> seq<string>)
    requires forall x :: |f(x)| <= 1
    ensures |Concat(s, f)| <= |s|
  {
    if s != [] {
      ConcatBound(s[..|s| - 1], f);
    }
  }

  /** `y` is one of the pieces `f` gives for some element of `s`. */
  ghost predicate PieceOf<A>(s: seq<A>, f: A -> seq<string>, y: string)
  {
    exists i, j :: 0 <= i < |s| && 0 <= j < |f(s[i])| && y == f(s[i])[j]
  }

  /** Every piece of a concatenation comes from one of the elements. */
  lemma {:induction false} ConcatFrom<A>(s: seq<A>, f: A -> seq<string>)
    ensures forall k :: 0 <= k < |Concat(s, f)| ==> PieceOf(s, f, Concat(s, f)[k])
  {
    if s != [] {
      var init, x := s[..|s| - 1], s[|s| - 1];
      ConcatFrom(init, f);
      ConcatSnoc(s, init, x, f);
      var c0, c := Concat(init, f), Concat(s, f);
      forall k | 0 <= k < |c| ensures PieceOf(s, f, c[k]) {
        if k < |c0| {
          assert PieceOf(init, f, c0[k]);
          var i, j :| 0 <= i < |init| && 0 <= j < |f(init[i])| && c0[k] == f(init[i])[j];
          assert s[i] == init[i] && c[k] == c0[k];
          assert 0 <= i < |s| && 0 <= j < |f(s[i])| && c[k] == f(s[i])[j];
        } else {
          var i, j := |s| - 1, k - |c0|;
          assert 0 <= i < |s| && 0 <= j < |f(s[i])| && c[k] == f(s[i])[j];
        }
      }
    }
  }

  /** The number of cells in the sheet. */
  function CellCount(rows: seq<Row>): nat
  {
    if rows == [] then 0 else CellCount(rows[..|rows| - 1]) + |rows[|rows| - 1]|
  }

  /** At most one stamp per cell. */
  lemma {:induction false} AllDatesBound(rows: seq<Row>)
    ensures |AllDates(rows)| <= CellCount(rows)
  {
    if rows != [] {
      var init, last := rows[..|rows| - 1], rows[|rows| - 1];
      AllDatesBound(init);
      ConcatSnoc(rows, init, last, RowMatches);
      ConcatBound(last, CellMatch);
    }
  }

  /** Every collected stamp is the first stamp of some cell of the sheet, header included. */
  lemma AllDatesFromCells(rows: seq<Row>)
    ensures forall k :: 0 <= k < |AllDates(rows)| ==>
      exists r, c :: 0 <= r < |rows| && 0 <= c < |rows[r]| && FirstDate(rows[r][c]) == Some(AllDates(rows)[k])
  {
    var d := AllDates(rows);
    ConcatFrom(rows, RowMatches);
    forall k | 0 <= k < |d|
      ensures exists r, c :: 0 <= r < |rows| && 0 <= c < |rows[r]| && FirstDate(rows[r][c]) == Some(d[k])
    {
      assert PieceOf(rows, RowMatches, d[k]);
      var r, j :| 0 <= r < |rows| && 0 <= j < |RowMatches(rows[r])| && d[k] == RowMatches(rows[r])[j];
      ConcatFrom(rows[r], CellMatch);
      assert PieceOf(rows[r], CellMatch, d[k]);
      var c, z :| 0 <= c < |rows[r]| && 0 <= z < |CellMatch(rows[r][c])| && d[k] == CellMatch(rows[r][c])[z];
      assert FirstDate(rows[r][c]) == Some(d[k]);
    }
  }


  // ---------------------------------------------------------------------------
  // The component's own segmenter
  // ---------------------------------------------------------------------------

  /** `parseMessageText`: the component's own copy of the four field rules, with `date`
      passed through as is. It builds the very record src/index.js builds: the rules and
      their "" fallbacks are the same, and `date` and `date || ""` agree on every string. */
  function ParseMessageText(text: string, date: string): (r: Record)
    ensures r == ParseWithDate(text, date)
  {
    Record(Numero(text), Name(text), DoorName(text), MessageType(text), text, date)
  }

  /** The variant's loop state: emitted texts, collected date candidates and the buffer. */
  datatype Variant = Variant(texts: seq<string>, dates: seq<string>, buffer: seq<string>)

  /** `rows[i]?.[dateIdx]` trimmed; `None` stands for the undefined index the handler passes. */
  function DateCandidate(row: Row, dateIdx: Option<nat>): string
  {
    match dateIdx
    case None => []
    case Some(d) => Trim(Cell(row, d))
  }

  /** One iteration of the variant's loop. */
  function VariantStep(v: Variant, row: Row, msgIdx: nat, dateIdx: Option<nat>): Variant
  {
    var message := MessageOf(row, msgIdx);
    var candidate := DateCandidate(row, dateIdx);
    var dates := if candidate != [] && HasShortDate(candidate) then v.dates + [candidate] else v.dates;
    var buffer := if message != [] then v.buffer + [message] else v.buffer;
    if EndsWithPeriod(message) then Variant(v.texts + [BlockText(buffer)], dates, [])
    else Variant(v.texts, dates, buffer)
  }

  /** The variant's loop state after the given rows. */
  function VariantScan(rows: seq<Row>, msgIdx: nat, dateIdx: Option<nat>): Variant
  {
    if rows == [] then Variant([], [], [])
    else VariantStep(VariantScan(rows[..|rows| - 1], msgIdx, dateIdx), rows[|rows| - 1], msgIdx, dateIdx)
  }

  /** The variant's texts, after the trailing buffer is flushed. */
  function VariantTexts(rows: seq<Row>, msgIdx: nat, dateIdx: Option<nat>): seq<string>
  {
    var v := VariantScan(rows, msgIdx, dateIdx);
    if |v.buffer| > 0 then v.texts + [BlockText(v.buffer)] else v.texts
  }

  /** `dates` padded with "" up to length `n`. */
  function Pad(dates: seq<string>, n: nat): (r: seq<string>)
    ensures |r| == if |dates| < n then n else |dates|
    ensures forall k :: 0 <= k < |dates| ==> r[k] == dates[k]
    ensures forall k :: |dates| <= k < |r| ==> r[k] == []
  {
    if |dates| < n then dates + seq(n - |dates|, _ => []) else dates
  }

  /** What the variant `buildRecordsFromMessageText` returns. */
  function VariantRecordsOf(rows: seq<Row>, msgIdx: nat, dateIdx: Option<nat>): (r: seq<Record>)
    ensures |r| == |VariantTexts(rows, msgIdx, dateIdx)|
  {
    var texts := VariantTexts(rows, msgIdx, dateIdx);
    var dates := Pad(VariantScan(rows, msgIdx, dateIdx).dates, |texts|);
    seq(|texts|, k requires 0 <= k < |texts| => ParseMessageText(texts[k], dates[k]))
  }

  lemma VariantSnoc(rows: seq<Row>, i: nat, msgIdx: nat, dateIdx: Option<nat>)
    requires i < |rows|
    ensures VariantScan(rows[..i + 1], msgIdx, dateIdx) == VariantStep(VariantScan(rows[..i], msgIdx, dateIdx), rows[i], msgIdx, dateIdx)
  {
    assert rows[..i + 1][..i] == rows[..i];
  }

  lemma PadSnoc(dates: seq<string>, m: nat)
    requires |dates| <= m
    ensures Pad(dates, m + 1) == Pad(dates, m) + [[]]
  {
  }

  /** `dates[idx]` is never undefined: after the padding, record `k` carries the `k`-th
      collected candidate, or "" when fewer were collected; its text is block `k`'s. */
  lemma VariantRecordDates(rows: seq<Row>, msgIdx: nat, dateIdx: Option<nat>)
    ensures var r, t, c := VariantRecordsOf(rows, msgIdx, dateIdx), VariantTexts(rows, msgIdx, dateIdx), VariantScan(rows, msgIdx, dateIdx).dates;
      forall k :: 0 <= k < |r| ==> r[k].messageText == t[k] && r[k].dateTime == (if k < |c| then c[k] else [])
  {
  }

  /** One row moves the variant's texts and buffer exactly as one step of the src/index.js
      loop moves its own, whatever the date column. */
  lemma VariantStepAgrees(v: Variant, f: Fold, row: Row, msgIdx: nat, dateIdx: Option<nat>)
    requires v.texts == f.texts && v.buffer == f.buffer
    ensures var v', f' := VariantStep(v, row, msgIdx, dateIdx), Step(f, row, msgIdx);
      v'.texts == f'.texts && v'.buffer == f'.buffer
  {
  }

  /** A date-column cell the src/index.js engine would recognise as a full stamp is always
      collected as a candidate. */
  lemma StampCellCollected(v: Variant, row: Row, msgIdx: nat, d: nat)
    requires FirstDate(Trim(Cell(row, d))).Some?
    ensures VariantStep(v, row, msgIdx, Some(d)).dates == v.dates + [Trim(Cell(row, d))]
  {
    var c := Trim(Cell(row, d));
    DateSearchSpec(c);
    var (i, f) := DateSearch(c).value;
    StampHasShortDate(c, i, f);
  }

  /** The variant `buildRecordsFromMessageText(rows, msgIdx, dateIdx)` of src/App.jsx. */
  method VariantBuildRecords(rows: seq<Row>, msgIdx: nat, dateIdx: Option<nat>) returns (records: seq<Record>)
    ensures records == VariantRecordsOf(rows, msgIdx, dateIdx)
  {
    var texts: seq<string> := [];
    var dates: seq<string> := [];
    var buffer: seq<string> := [];
    var i := 0;
    while i < |rows|
      invariant 0 <= i <= |rows|
      invariant VariantScan(rows[..i], msgIdx, dateIdx) == Variant(texts, dates, buffer)
    {
      ghost var before := Variant(texts, dates, buffer);
      VariantSnoc(rows, i, msgIdx, dateIdx);
      var message := MessageOf(rows[i], msgIdx);
      var dateCandidate := DateCandidate(rows[i], dateIdx);
      if dateCandidate != [] && HasShortDate(dateCandidate) {
        dates := dates + [dateCandidate];
      }
      if message != [] {
        buffer := buffer + [message];
      }
      if EndsWithPeriod(message) {
        texts := texts + [Normalize(Join(buffer, " "))];
        buffer := [];
      }
      assert Variant(texts, dates, buffer) == VariantStep(before, rows[i], msgIdx, dateIdx);
      i := i + 1;
    }
    assert rows[..i] == rows;
    if |buffer| > 0 {
      texts := texts + [Normalize(Join(buffer, " "))];
    }
    ghost var collected := dates;
    while |dates| < |texts|
      invariant dates == Pad(collected, |dates|)
      invariant |dates| <= |texts| || dates == collected
      decreases |texts| - |dates|
    {
      PadSnoc(collected, |dates|);
      dates := dates + [[]];
    }
    records := seq(|texts|, k requires 0 <= k < |texts| => ParseMessageText(texts[k], dates[k]));
  }

  /** The variant keeps exactly the texts and buffer of the src/index.js loop. */
  lemma {:induction false} VariantAgrees(rows: seq<Row>, msgIdx: nat, dateIdx: Option<nat>)
    ensures VariantScan(rows, msgIdx, dateIdx).texts == Scan(rows, msgIdx).texts
    ensures VariantScan(rows, msgIdx, dateIdx).buffer == Scan(rows, msgIdx).buffer
  {
    if rows != [] {
      var init := rows[..|rows| - 1];
      VariantAgrees(init, msgIdx, dateIdx);
    }
  }

  /** So its block texts are those of src/index.js, for the same rows and column. */
  lemma VariantTextsAgree(rows: seq<Row>, msgIdx: nat, dateIdx: Option<nat>)
    ensures VariantTexts(rows, msgIdx, dateIdx) == Segment(rows, msgIdx).texts
  {
    VariantAgrees(rows, msgIdx, dateIdx);
  }

  /** Without a date column no candidate is ever collected. */
  lemma {:induction false} VariantUndated(rows: seq<Row>, msgIdx: nat)
    ensures VariantScan(rows, msgIdx, None).dates == []
  {
    if rows != [] {
      VariantUndated(rows[..|rows| - 1], msgIdx);
    }
  }

  /** Called without a date column, as the handler does, the variant returns the
      src/index.js records with every Date/Time set to "". */
  lemma VariantMatchesEngine(rows: seq<Row>, msgIdx: nat)
    ensures var v, e := VariantRecordsOf(rows, msgIdx, None), RecordsOf(rows, msgIdx);
      && |v| == |e|
      && forall k :: 0 <= k < |v| ==> v[k] == e[k].(dateTime := [])
  {
    VariantTextsAgree(rows, msgIdx, None);
    VariantUndated(rows, msgIdx);
  }

  /** With a date column, the candidates are trimmed cells of that column that contain
      a short date, one per row at most: they follow the rows, not the blocks. */
  lemma {:induction false} VariantDates(rows: seq<Row>, msgIdx: nat, d: nat)
    ensures var dates := VariantScan(rows, msgIdx, Some(d)).dates;
      && |dates| <= |rows|
      && forall k :: 0 <= k < |dates| ==>
        && dates[k] != [] && HasShortDate(dates[k])
        && exists j :: 0 <= j < |rows| && dates[k] == Trim(Cell(rows[j], d))
  {
    if rows != [] {
      var init := rows[..|rows| - 1];
      VariantDates(init, msgIdx, d);
      var before := VariantScan(init, msgIdx, Some(d)).dates;
      var dates := VariantScan(rows, msgIdx, Some(d)).dates;
      forall k | 0 <= k < |dates|
        ensures exists j :: 0 <= j < |rows| && dates[k] == Trim(Cell(rows[j], d))
      {
        if k < |before| {
          var j :| 0 <= j < |init| && before[k] == Trim(Cell(init[j], d));
          assert init[j] == rows[j];
        } else {
          assert dates[k] == Trim(Cell(rows[|rows| - 1], d));
        }
      }
    }
  }

  // ---------------------------------------------------------------------------
  // The preview
  // ---------------------------------------------------------------------------

  /** A preview row: the record with Date/Time replaced; `None` is JavaScript's undefined. */
  datatype PreviewRow = PreviewRow(
    numero: string,
    name: string,
    doorName: string,
    messageType: string,
    messageText: string,
    dateTime: Option<string>)

  /** `processed.map((a, i) => ({...a, "Date/Time": allDates[i]}))` */
  function Overlay(processed: seq<Record>, allDates: seq<string>): (r: seq<PreviewRow>)
    ensures |r| == |processed|
  {
    seq(|processed|, i requires 0 <= i < |processed| =>
      var a := processed[i];
      PreviewRow(a.numero, a.name, a.doorName, a.messageType, a.messageText,
        if i < |allDates| then Some(allDates[i]) else None))
  }

  /** The overlay throws the records' own Date/Time away: records that differ only
      there give the same preview rows. */
  lemma OverlayDropsRecordDates(a: seq<Record>, b: seq<Record>, allDates: seq<string>)
    requires |a| == |b|
    requires forall k :: 0 <= k < |a| ==> a[k].(dateTime := []) == b[k].(dateTime := [])
    ensures Overlay(a, allDates) == Overlay(b, allDates)
  {
    forall k | 0 <= k < |a| ensures Overlay(a, allDates)[k] == Overlay(b, allDates)[k] {
      assert a[k].(dateTime := []).numero == b[k].(dateTime := []).numero;
    }
  }

  /** Stamps beyond the number of records never reach the preview. */
  lemma OverlayIgnoresExtraStamps(processed: seq<Record>, allDates: seq<string>, more: seq<string>)
    requires |processed| <= |allDates|
    ensures Overlay(processed, allDates + more) == Overlay(processed, allDates)
  {
  }

  /** The preview of a non-empty sheet: one row per block src/index.js finds in the
      data rows, the header row left out. */
  function PreviewOf(rows: seq<Row>): (p: seq<PreviewRow>)
    requires rows != []
    ensures |p| == |Segment(rows[1..], MessageColumn(Headers(rows[0]))).texts|
  {
    var column := MessageColumn(Headers(rows[0]));
    VariantTextsAgree(rows[1..], column, None);
    Overlay(VariantRecordsOf(rows[1..], column, None), AllDates(rows))
  }

  /** The `reader.onload` handler from the parsed rows on: `None` when the sheet has no
      rows, so that the preview is left as it was. */
  method OnLoad(rows: seq<Row>) returns (preview: Option<seq<PreviewRow>>)
    ensures rows == [] <==> preview.None?
    ensures rows != [] ==> preview == Some(PreviewOf(rows))
  {
    if |rows| == 0 {
      return None;
    }
    var headerRow := Headers(rows[0]);
    var messageTextIdx := FindIndex(headerRow, HasMessageText);
    var allDates := CollectDates(rows);
    if messageTextIdx == -1 {
      messageTextIdx := FindIndex(headerRow, HasText);
      if messageTextIdx == -1 {
        messageTextIdx := 0;
      }
    }
    assert messageTextIdx == MessageColumn(headerRow);
    var dataRows := rows[1..];
    var processed := VariantBuildRecords(dataRows, messageTextIdx, None);
    var combined := Overlay(processed, allDates);
    preview := Some(combined);
  }

  /** The preview has one row per block of the data rows (the rows after the header).
      Row `i` carries the `i`-th stamp of the whole sheet, or undefined when the sheet
      has fewer stamps than blocks; every other field is that of the src/index.js
      record for the same block. */
  lemma PreviewSpec(rows: seq<Row>)
    requires rows != []
    ensures var column := MessageColumn(Headers(rows[0]));
      var p, e, d := PreviewOf(rows), RecordsOf(rows[1..], column), AllDates(rows);
      && |p| == |e|
      && forall i :: 0 <= i < |p| ==>
        && p[i].numero == e[i].numero && p[i].name == e[i].name && p[i].doorName == e[i].doorName
        && p[i].messageType == e[i].messageType && p[i].messageText == e[i].messageText
        && (i < |d| ==> p[i].dateTime == Some(d[i]))
        && (i >= |d| ==> p[i].dateTime.None?)
  {
    VariantMatchesEngine(rows[1..], MessageColumn(Headers(rows[0])));
  }

  // ---------------------------------------------------------------------------
  // Export file name
  // ---------------------------------------------------------------------------

  /** `fileName ? fileName.replace(/\.xls[x]?$/i, "_fixed.xlsx") : "reporte_fixed.xlsx"` */
  function ExportName(fileName: string): (r: string)
    ensures fileName == [] ==> r == "reporte_fixed.xlsx"
    ensures r == fileName || (|r| >= 11 && r[|r| - 11..] == "_fixed.xlsx")
  {
    if fileName == [] then "reporte_fixed.xlsx"
    else
      match Leftmost(fileName, 0, XlsAt)
      case Some((p, _)) =>
        var r := fileName[..p] + "_fixed.xlsx";
        assert r[|r| - 11..] == "_fixed.xlsx";
        r
      case None => fileName
  }

  /** `.xls` or `.xlsx`, in any mix of case. */
  predicate XlsExtension(ext: string)
  {
    && (|ext| == 4 || |ext| == 5)
    && ext[0] == '.' && CiAt(ext, 1, "xls")
    && (|ext| == 5 ==> Lower(ext[4]) == 'x')
  }

  /** The name ends with such an extension. */
  predicate HasXlsSuffix(s: string)
  {
    (|s| >= 4 && XlsExtension(s[|s| - 4..])) || (|s| >= 5 && XlsExtension(s[|s| - 5..]))
  }

  /** The extension is replaced, whatever comes before it. */
  lemma ExportRenames(stem: string, ext: string)
    requires XlsExtension(ext)
    ensures ExportName(stem + ext) == stem + "_fixed.xlsx"
  {
    var s := stem + ext;
    assert s[|stem|..] == ext;
    forall k | 0 <= k < |stem| ensures XlsAt(s, k).None? {
      if k + 5 == |s| {
        assert s[k + 4] == ext[3];
        assert "xls"[2] == 's' && Lower(ext[1 + 2]) == "xls"[2];
      }
    }
    assert XlsAt(s, |stem|).Some? by {
      forall j | 0 <= j < 3 ensures Lower(s[|stem| + 1 + j]) == "xls"[j] {
        assert s[|stem| + 1 + j] == ext[1 + j];
      }
      if |ext| == 5 {
        assert s[|stem| + 4] == ext[4];
      }
    }
    LeftmostAt(s, 0, |stem|, XlsAt);
  }

  lemma XlsAtSuffix(s: string, p: nat)
    requires XlsAt(s, p).Some?
    ensures HasXlsSuffix(s)
  {
    var ext := s[p..];
    assert forall j :: 0 <= j < |ext| ==> ext[j] == s[p + j];
    assert XlsExtension(ext);
  }

  /** A non-empty name without the extension is kept as it is. */
  lemma ExportKeeps(s: string)
    requires s != [] && !HasXlsSuffix(s)
    ensures ExportName(s) == s
  {
    forall k | 0 <= k <= |s| ensures XlsAt(s, k).None? {
      if XlsAt(s, k).Some? {
        XlsAtSuffix(s, k);
      }
    }
    LeftmostNone(s, 0, XlsAt);
  }

  /** A name ending with the extension gets `_fixed.xlsx` in its place. */
  lemma ExportReplaces(s: string)
    requires HasXlsSuffix(s)
    ensures var r := ExportName(s);
      r != s && |r| >= 11 && r[|r| - 11..] == "_fixed.xlsx"
  {
    var n := if |s| >= 5 && XlsExtension(s[|s| - 5..]) then 5 else 4;
    var stem, ext := s[..|s| - n], s[|s| - n..];
    assert s == stem + ext && XlsExtension(ext);
    ExportRenames(stem, ext);
    var r := stem + "_fixed.xlsx";
    assert r[|r| - 11..] == "_fixed.xlsx";
  }

  /** The name changes exactly when it is empty or ends with the extension, and the
      new name then ends with `_fixed.xlsx`. */
  lemma ExportChanges(s: string)
    ensures ExportName(s) != s <==> s == [] || HasXlsSuffix(s)
    ensures ExportName(s) != s ==> |ExportName(s)| >= 11 && ExportName(s)[|ExportName(s)| - 11..] == "_fixed.xlsx"
  {
    if HasXlsSuffix(s) {
      ExportReplaces(s);
    } else if s != [] {
      ExportKeeps(s);
    }
  }
}
