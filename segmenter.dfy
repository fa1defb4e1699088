/** The row-to-block segmenter of src/index.js: one pass over the data rows that
    groups message fragments into period-terminated blocks and carries the last
    date/time stamp seen forward, followed by the field extractor on every block. */
module Segmenter {
  import opened Wrappers
  import opened Chars
  import opened Text
  import opened Patterns
  import opened Extractor

  /** One spreadsheet row: its cells, in column order, as strings. */
  type Row = seq<string>

  /** `rows[i]?.[msgIdx]`, with a missing cell read as "". */
  function Cell(row: Row, idx: nat): string
  {
    if idx < |row| then row[idx] else []
  }

  /** The trimmed message cell of a row. */
  function MessageOf(row: Row, idx: nat): string
  {
    Trim(Cell(row, idx))
  }

  /** The first date/time stamp in the row's cells joined with a space. */
  function RowDate(row: Row): (r: Option<string>)
    ensures r.Some? ==> |r.value| > 0
  {
    FirstDate(Join(row, " "))
  }

  /** The loop state: emitted texts and dates, the fragment buffer and `lastDate`. */
  datatype Fold = Fold(texts: seq<string>, dates: seq<string>, buffer: seq<string>, lastDate: string)

  /** The text a block's fragments become. */
  function BlockText(fragments: seq<string>): string
  {
    Normalize(Join(fragments, " "))
  }

  /** A non-blank message taken into the loop state, with the row's stamp if it has one. */
  function Absorb(f: Fold, message: string, found: Option<string>): Fold
  {
    var lastDate := match found case Some(d) => d case None => f.lastDate;
    var buffer := f.buffer + [message];
    if EndsWithPeriod(message) then Fold(f.texts + [BlockText(buffer)], f.dates + [lastDate], [], lastDate)
    else Fold(f.texts, f.dates, buffer, lastDate)
  }

  /** One iteration of the loop over the rows: a row whose message is blank is skipped. */
  function Step(f: Fold, row: Row, idx: nat): Fold
  {
    var message := MessageOf(row, idx);
    if message == [] then f else Absorb(f, message, RowDate(row))
  }

  /** The loop state after the given rows. */
  function Scan(rows: seq<Row>, idx: nat): (f: Fold)
    ensures |f.texts| == |f.dates|
  {
    if rows == [] then Fold([], [], [], [])
    else Step(Scan(rows[..|rows| - 1], idx), rows[|rows| - 1], idx)
  }

  /** The blocks: texts and dates, index-aligned. */
  datatype Blocks = Blocks(texts: seq<string>, dates: seq<string>)

  /** The blocks at the end of the loop, after a trailing unterminated buffer is flushed. */
  function Flush(f: Fold): (b: Blocks)
    requires |f.texts| == |f.dates|
    ensures |b.texts| == |b.dates|
  {
    if |f.buffer| > 0 then Blocks(f.texts + [BlockText(f.buffer)], f.dates + [f.lastDate])
    else Blocks(f.texts, f.dates)
  }

  /** The blocks the whole pass produces. */
  function Segment(rows: seq<Row>, idx: nat): (b: Blocks)
    ensures |b.texts| == |b.dates|
  {
    Flush(Scan(rows, idx))
  }

  /** What `buildRecordsFromMessageText` returns. */
  function RecordsOf(rows: seq<Row>, idx: nat): (r: seq<Record>)
    ensures |r| == |Segment(rows, idx).texts|
  {
    var b := Segment(rows, idx);
    seq(|b.texts|, k requires 0 <= k < |b.texts| => ParseWithDate(b.texts[k], b.dates[k]))
  }

  /** `buildRecordsFromMessageText(rows, msgIdx)` of src/index.js. */
  method BuildRecords(rows: seq<Row>, msgIdx: nat) returns (records: seq<Record>)
    ensures records == RecordsOf(rows, msgIdx)
    ensures |records| == CountClosed(Messages(rows, msgIdx)) + (if Unterminated(Messages(rows, msgIdx)) then 1 else 0)
  {
    var texts: seq<string> := [];
    var dates: seq<string> := [];
    var buffer: seq<string> := [];
    var lastDate: string := [];
    var i := 0;
    while i < |rows|
      invariant 0 <= i <= |rows|
      invariant Scan(rows[..i], msgIdx) == Fold(texts, dates, buffer, lastDate)
    {
      ghost var before := Fold(texts, dates, buffer, lastDate);
      ScanSnoc(rows, i, msgIdx);
      var message := MessageOf(rows[i], msgIdx);
      if message != [] {
        var found := RowDate(rows[i]);
        if found.Some? {
          lastDate := found.value;
        }
        buffer := buffer + [message];
        if EndsWithPeriod(message) {
          texts := texts + [Normalize(Join(buffer, " "))];
          dates := dates + [lastDate];
          buffer := [];
        }
        assert Fold(texts, dates, buffer, lastDate) == Absorb(before, message, found);
      }
      i := i + 1;
    }
    assert rows[..i] == rows;
    if |buffer| > 0 {
      texts := texts + [Normalize(Join(buffer, " "))];
      dates := dates + [lastDate];
    }
    records := seq(|texts|, k requires 0 <= k < |texts| => ParseWithDate(texts[k], dates[k]));
    BlockCount(rows, msgIdx);
  }

  /** The loop state after one more row. */
  lemma ScanSnoc(rows: seq<Row>, i: nat, idx: nat)
    requires i < |rows|
    ensures Scan(rows[..i + 1], idx) == Step(Scan(rows[..i], idx), rows[i], idx)
  {
    assert rows[..i + 1][..i] == rows[..i];
  }

  // ---------------------------------------------------------------------------
  // An independent description of the blocks
  // ---------------------------------------------------------------------------

  /** The non-empty trimmed messages, in row order. */
  function Messages(rows: seq<Row>, idx: nat): (m: seq<string>)
    ensures forall k :: 0 <= k < |m| ==> m[k] != []
  {
    if rows == [] then []
    else
      var message := MessageOf(rows[|rows| - 1], idx);
      Messages(rows[..|rows| - 1], idx) + (if message != [] then [message] else [])
  }

  /** How many messages end with a period. */
  function CountClosed(msgs: seq<string>): nat
  {
    if msgs == [] then 0
    else CountClosed(msgs[..|msgs| - 1]) + (if EndsWithPeriod(msgs[|msgs| - 1]) then 1 else 0)
  }

  /** The messages end with a fragment that no period closes. */
  predicate Unterminated(msgs: seq<string>)
  {
    msgs != [] && !EndsWithPeriod(msgs[|msgs| - 1])
  }

  /** The messages cut after every message that ends with a period: a message
      opens a new group unless the message before it left its group open. */
  function Groups(msgs: seq<string>): (g: seq<seq<string>>)
    ensures msgs != [] ==> g != []
  {
    if msgs == [] then []
    else
      var init, m := msgs[..|msgs| - 1], msgs[|msgs| - 1];
      var g := Groups(init);
      if Unterminated(init) then g[..|g| - 1] + [g[|g| - 1] + [m]] else g + [[m]]
  }

  /** The groups put back together. */
  function Flatten(g: seq<seq<string>>): seq<string>
  {
    if g == [] then [] else Flatten(g[..|g| - 1]) + g[|g| - 1]
  }

  /** No group is empty, only its last fragment may end with a period, and every
      group but the last does end with one. */
  ghost predicate WellCut(g: seq<seq<string>>)
  {
    forall b :: 0 <= b < |g| ==>
      && g[b] != []
      && (forall j :: 0 <= j < |g[b]| - 1 ==> !EndsWithPeriod(g[b][j]))
      && (b < |g| - 1 ==> EndsWithPeriod(g[b][|g[b]| - 1]))
  }

  /** The block text of every group. */
  function Texts(g: seq<seq<string>>): (t: seq<string>)
    ensures |t| == |g|
    ensures forall b :: 0 <= b < |g| ==> t[b] == BlockText(g[b])
  {
    seq(|g|, b requires 0 <= b < |g| => BlockText(g[b]))
  }

  /** The stamp a row contributes to `lastDate`: its date, unless its message is blank. */
  function Stamp(row: Row, idx: nat): (r: Option<string>)
    ensures r.Some? ==> |r.value| > 0
  {
    if MessageOf(row, idx) != [] then RowDate(row) else None
  }

  /** The stamps of the rows, in row order. */
  function Stamps(rows: seq<Row>, idx: nat): seq<Option<string>>
  {
    seq(|rows|, k requires 0 <= k < |rows| => Stamp(rows[k], idx))
  }

  /** The last present value. */
  function LastSome<T>(s: seq<Option<T>>): Option<T>
  {
    if s == [] then None
    else if s[|s| - 1].Some? then s[|s| - 1]
    else LastSome(s[..|s| - 1])
  }

  /** The stamp of the most recent row that has one, or "". */
  function LatestDate(rows: seq<Row>, idx: nat): string
  {
    match LastSome(Stamps(rows, idx))
    case Some(d) => d
    case None => []
  }

  // ---------------------------------------------------------------------------
  // Properties of the grouping
  // ---------------------------------------------------------------------------

  lemma FlattenSnoc(g: seq<seq<string>>, h: seq<string>)
    ensures Flatten(g + [h]) == Flatten(g) + h
  {
    assert (g + [h])[..|g|] == g;
  }

  /** The last message is the last fragment of the last group. */
  lemma FlattenLast(g: seq<seq<string>>)
    requires g != [] && g[|g| - 1] != []
    ensures var f, l := Flatten(g), g[|g| - 1];
      f != [] && f[|f| - 1] == l[|l| - 1]
  {
    assert g == g[..|g| - 1] + [g[|g| - 1]];
    FlattenSnoc(g[..|g| - 1], g[|g| - 1]);
  }

  /** After a message that ends with a period (or at the start), the next message opens a new group. */
  lemma GroupsSnocClosed(msgs: seq<string>, m: string)
    requires !Unterminated(msgs)
    ensures Groups(msgs + [m]) == Groups(msgs) + [[m]]
  {
    assert (msgs + [m])[..|msgs|] == msgs;
  }

  /** After a message without a final period, the next message joins the open last group. */
  lemma GroupsSnocOpen(msgs: seq<string>, m: string)
    requires Unterminated(msgs)
    ensures var g := Groups(msgs);
      g != [] && Groups(msgs + [m]) == g[..|g| - 1] + [g[|g| - 1] + [m]]
  {
    assert (msgs + [m])[..|msgs|] == msgs;
  }

  /** A new one-message group after a group closed by a period keeps the cut well formed. */
  lemma WellCutClosed(g: seq<seq<string>>, m: string)
    requires WellCut(g)
    requires g != [] ==> g[|g| - 1] != [] && EndsWithPeriod(g[|g| - 1][|g[|g| - 1]| - 1])
    ensures WellCut(g + [[m]])
  {
    var c := g + [[m]];
    forall b | 0 <= b < |c|
      ensures c[b] != []
      ensures forall j :: 0 <= j < |c[b]| - 1 ==> !EndsWithPeriod(c[b][j])
      ensures b < |c| - 1 ==> EndsWithPeriod(c[b][|c[b]| - 1])
    {
      if b < |g| {
        assert c[b] == g[b];
      } else {
        assert c[b] == [m];
      }
    }
  }

  /** Extending an open last group keeps the cut well formed. */
  lemma WellCutOpen(g: seq<seq<string>>, m: string)
    requires WellCut(g) && g != []
    requires !EndsWithPeriod(g[|g| - 1][|g[|g| - 1]| - 1])
    ensures WellCut(g[..|g| - 1] + [g[|g| - 1] + [m]])
  {
    var n, l := |g|, g[|g| - 1];
    var c := g[..n - 1] + [l + [m]];
    forall b | 0 <= b < |c|
      ensures c[b] != []
      ensures forall j :: 0 <= j < |c[b]| - 1 ==> !EndsWithPeriod(c[b][j])
      ensures b < |c| - 1 ==> EndsWithPeriod(c[b][|c[b]| - 1])
    {
      if b < n - 1 {
        assert c[b] == g[b];
      } else {
        assert c[b] == l + [m];
        forall j | 0 <= j < |l| ensures !EndsWithPeriod(c[b][j]) {
          assert c[b][j] == l[j];
        }
      }
    }
  }

  /** Cutting loses nothing and reorders nothing, and the cuts fall where the periods are. */
  lemma {:induction false} GroupsPartition(msgs: seq<string>)
    ensures Flatten(Groups(msgs)) == msgs
    ensures WellCut(Groups(msgs))
    decreases |msgs|
  {
    if msgs != [] {
      var init, m := msgs[..|msgs| - 1], msgs[|msgs| - 1];
      assert msgs == init + [m];
      GroupsPartition(init);
      if Unterminated(init) {
        PartitionOpen(init, m);
      } else {
        PartitionClosed(init, m);
      }
    }
  }

  /** One step of the partition, where the message joins the open last group. */
  lemma PartitionOpen(init: seq<string>, m: string)
    requires Flatten(Groups(init)) == init && WellCut(Groups(init))
    requires Unterminated(init)
    ensures Flatten(Groups(init + [m])) == init + [m]
    ensures WellCut(Groups(init + [m]))
  {
    var g0 := Groups(init);
    FlattenOpen(init, m);
    assert !EndsWithPeriod(g0[|g0| - 1][|g0[|g0| - 1]| - 1]) by {
      assert g0[|g0| - 1] != [];
      FlattenLast(g0);
    }
    GroupsSnocOpen(init, m);
    WellCutOpen(g0, m);
  }

  /** Joining the open last group keeps the messages in order. */
  lemma FlattenOpen(init: seq<string>, m: string)
    requires Flatten(Groups(init)) == init && Unterminated(init)
    ensures Flatten(Groups(init + [m])) == init + [m]
  {
    var g0 := Groups(init);
    GroupsSnocOpen(init, m);
    var front, l := g0[..|g0| - 1], g0[|g0| - 1];
    assert g0 == front + [l];
    FlattenSnoc(front, l);
    FlattenSnoc(front, l + [m]);
  }

  /** One step of the partition, where the message opens a new group. */
  lemma PartitionClosed(init: seq<string>, m: string)
    requires Flatten(Groups(init)) == init && WellCut(Groups(init))
    requires !Unterminated(init)
    ensures Flatten(Groups(init + [m])) == init + [m]
    ensures WellCut(Groups(init + [m]))
  {
    var g0 := Groups(init);
    if init != [] {
      assert g0[|g0| - 1] != [];
      FlattenLast(g0);
    }
    GroupsSnocClosed(init, m);
    FlattenSnoc(g0, [m]);
    WellCutClosed(g0, m);
  }

  /** Dropping the last group keeps the cut well formed. */
  lemma WellCutFront(g: seq<seq<string>>)
    requires WellCut(g) && g != []
    ensures WellCut(g[..|g| - 1])
  {
    var c := g[..|g| - 1];
    forall b | 0 <= b < |c|
      ensures c[b] != []
      ensures forall j :: 0 <= j < |c[b]| - 1 ==> !EndsWithPeriod(c[b][j])
      ensures b < |c| - 1 ==> EndsWithPeriod(c[b][|c[b]| - 1])
    {
      assert c[b] == g[b];
    }
  }

  /** Dropping the last fragment of a last group of two or more keeps the cut well formed. */
  lemma WellCutShrink(g: seq<seq<string>>)
    requires WellCut(g) && g != [] && |g[|g| - 1]| > 1
    ensures var l := g[|g| - 1];
      WellCut(g[..|g| - 1] + [l[..|l| - 1]])
  {
    var n, l := |g|, g[|g| - 1];
    var c := g[..n - 1] + [l[..|l| - 1]];
    forall b | 0 <= b < |c|
      ensures c[b] != []
      ensures forall j :: 0 <= j < |c[b]| - 1 ==> !EndsWithPeriod(c[b][j])
      ensures b < |c| - 1 ==> EndsWithPeriod(c[b][|c[b]| - 1])
    {
      if b < n - 1 {
        assert c[b] == g[b];
      } else {
        assert c[b] == l[..|l| - 1];
        forall j | 0 <= j < |c[b]| - 1 ensures !EndsWithPeriod(c[b][j]) {
          assert c[b][j] == l[j];
        }
      }
    }
  }

  /** What a well-formed cut says about its last group and the groups before it. */
  lemma WellCutSplit(g: seq<seq<string>>)
    requires WellCut(g) && g != []
    ensures var front, l := g[..|g| - 1], g[|g| - 1];
      && l != []
      && WellCut(front)
      && (front != [] ==> front[|front| - 1] != [] && EndsWithPeriod(front[|front| - 1][|front[|front| - 1]| - 1]))
      && (|l| > 1 ==> !EndsWithPeriod(l[|l| - 2]) && WellCut(front + [l[..|l| - 1]]))
  {
    var front, l := g[..|g| - 1], g[|g| - 1];
    WellCutFront(g);
    if front != [] {
      assert front[|front| - 1] == g[|g| - 2];
    }
    if |l| > 1 {
      WellCutShrink(g);
    }
  }

  /** The cut is the only one: every well-cut grouping of the messages is `Groups`. */
  lemma {:induction false} GroupsUnique(msgs: seq<string>, g: seq<seq<string>>)
    requires Flatten(g) == msgs && WellCut(g)
    ensures g == Groups(msgs)
    decreases |msgs|, 1
  {
    if g != [] {
      var front, l := g[..|g| - 1], g[|g| - 1];
      WellCutSplit(g);
      assert g == front + [l];
      if |l| == 1 {
        assert l == [l[0]];
        GroupsUniqueClosed(msgs, front, l[0]);
      } else {
        GroupsUniqueOpen(msgs, front, l);
      }
    }
  }

  /** A last group holding only the last message: the messages before it are cut uniquely. */
  lemma {:induction false} GroupsUniqueClosed(msgs: seq<string>, front: seq<seq<string>>, m: string)
    requires Flatten(front + [[m]]) == msgs && WellCut(front)
    requires front != [] ==> front[|front| - 1] != [] && EndsWithPeriod(front[|front| - 1][|front[|front| - 1]| - 1])
    ensures front + [[m]] == Groups(msgs)
    decreases |msgs|, 0
  {
    FlattenSnoc(front, [m]);
    var init := Flatten(front);
    assert msgs == init + [m];
    GroupsUnique(init, front);
    GroupsClosedStep(init, m, front);
  }

  /** A message after a closed last group (or at the start) opens a group of its own. */
  lemma GroupsClosedStep(init: seq<string>, m: string, front: seq<seq<string>>)
    requires Groups(init) == front && Flatten(front) == init
    requires front != [] ==> front[|front| - 1] != [] && EndsWithPeriod(front[|front| - 1][|front[|front| - 1]| - 1])
    ensures Groups(init + [m]) == front + [[m]]
  {
    if init != [] {
      FlattenLast(front);
    }
    GroupsSnocClosed(init, m);
  }

  /** A last group of two or more messages: dropping the last message leaves a grouping that is cut uniquely. */
  lemma {:induction false} GroupsUniqueOpen(msgs: seq<string>, front: seq<seq<string>>, l: seq<string>)
    requires |l| > 1 && Flatten(front + [l]) == msgs
    requires WellCut(front + [l[..|l| - 1]]) && !EndsWithPeriod(l[|l| - 2])
    ensures front + [l] == Groups(msgs)
    decreases |msgs|, 0
  {
    var m, l' := l[|l| - 1], l[..|l| - 1];
    var g' := front + [l'];
    assert l == l' + [m];
    FlattenSnoc(front, l);
    FlattenSnoc(front, l');
    var init := Flatten(g');
    assert msgs == init + [m];
    GroupsUnique(init, g');
    assert !EndsWithPeriod(l'[|l'| - 1]);
    GroupsOpenStep(init, m, front, l');
  }

  /** A message after an open last group joins it. */
  lemma GroupsOpenStep(init: seq<string>, m: string, front: seq<seq<string>>, l: seq<string>)
    requires Groups(init) == front + [l] && Flatten(front + [l]) == init
    requires l != [] && !EndsWithPeriod(l[|l| - 1])
    ensures Groups(init + [m]) == front + [l + [m]]
  {
    var g := front + [l];
    assert g[|g| - 1] == l && g[..|g| - 1] == front;
    FlattenLast(g);
    GroupsSnocOpen(init, m);
  }

  lemma TextsSnoc(g: seq<seq<string>>, fragments: seq<string>)
    ensures Texts(g + [fragments]) == Texts(g) + [BlockText(fragments)]
  {
  }

  // ---------------------------------------------------------------------------
  // The loop state, described by the messages seen so far
  // ---------------------------------------------------------------------------

  /** The last row's message is appended to the messages of the rows before it, when not blank. */
  lemma MessagesSnoc(rows: seq<Row>, idx: nat)
    requires rows != []
    ensures var message := MessageOf(rows[|rows| - 1], idx);
      Messages(rows, idx) == Messages(rows[..|rows| - 1], idx) + (if message != [] then [message] else [])
  {
  }

  /** After any prefix of the rows, one text was emitted per message ending with a period. */
  lemma {:induction false} ScanCount(rows: seq<Row>, idx: nat)
    ensures |Scan(rows, idx).texts| == CountClosed(Messages(rows, idx))
  {
    if rows != [] {
      var init, last := rows[..|rows| - 1], rows[|rows| - 1];
      ScanCount(init, idx);
      MessagesSnoc(rows, idx);
      assert Scan(rows, idx) == Step(Scan(init, idx), last, idx);
      StepTexts(Scan(init, idx), last, idx);
      var message := MessageOf(last, idx);
      if message != [] {
        assert Messages(rows, idx) == Messages(init, idx) + [message];
        CountClosedSnoc(Messages(init, idx), message);
      } else {
        assert Messages(rows, idx) == Messages(init, idx);
      }
    }
  }

  /** One row emits a text exactly when its message ends with a period. */
  lemma StepTexts(f: Fold, row: Row, idx: nat)
    ensures var message := MessageOf(row, idx);
      |Step(f, row, idx).texts| == |f.texts| + (if message != [] && EndsWithPeriod(message) then 1 else 0)
  {
  }

  /** Counting the closed messages one more message at a time. */
  lemma CountClosedSnoc(msgs: seq<string>, m: string)
    ensures CountClosed(msgs + [m]) == CountClosed(msgs) + (if EndsWithPeriod(m) then 1 else 0)
  {
    assert (msgs + [m])[..|msgs|] == msgs;
  }

  /** The loop state agrees with the grouping of the messages seen so far: the
      emitted texts are those of the closed groups and the buffer is the open group. */
  ghost predicate Tracks(f: Fold, msgs: seq<string>)
  {
    var g := Groups(msgs);
    && (!Unterminated(msgs) ==> f.buffer == [] && f.texts == Texts(g))
    && (Unterminated(msgs) ==> g != [] && f.buffer != [] && f.buffer == g[|g| - 1] && f.texts == Texts(g[..|g| - 1]))
  }

  /** After a closed group (or at the start), taking a message keeps the loop state in
      step with the grouping: it closes at once or becomes the new open group. */
  lemma AbsorbAfterClosed(f: Fold, msgs: seq<string>, message: string, found: Option<string>)
    requires Tracks(f, msgs) && !Unterminated(msgs)
    ensures Tracks(Absorb(f, message, found), msgs + [message])
  {
    var g0 := Groups(msgs);
    GroupsSnocClosed(msgs, message);
    var g := g0 + [[message]];
    assert Unterminated(msgs + [message]) <==> !EndsWithPeriod(message);
    if EndsWithPeriod(message) {
      TextsSnoc(g0, [message]);
    } else {
      assert g[..|g| - 1] == g0;
    }
  }

  /** With a group open, taking a message keeps the loop state in step with the
      grouping: the message joins the open group, which it may close. */
  lemma AbsorbIntoOpen(f: Fold, msgs: seq<string>, message: string, found: Option<string>)
    requires Tracks(f, msgs) && Unterminated(msgs)
    ensures Tracks(Absorb(f, message, found), msgs + [message])
  {
    var g0 := Groups(msgs);
    GroupsSnocOpen(msgs, message);
    var open := g0[|g0| - 1];
    var g := g0[..|g0| - 1] + [open + [message]];
    assert Unterminated(msgs + [message]) <==> !EndsWithPeriod(message);
    if EndsWithPeriod(message) {
      TextsSnoc(g0[..|g0| - 1], open + [message]);
    } else {
      assert g[..|g| - 1] == g0[..|g0| - 1];
    }
  }

  /** After any prefix of the rows, the loop state tracks the grouping of its messages. */
  lemma {:induction false} ScanGroups(rows: seq<Row>, idx: nat)
    ensures Tracks(Scan(rows, idx), Messages(rows, idx))
  {
    if rows != [] {
      var init, row := rows[..|rows| - 1], rows[|rows| - 1];
      ScanGroups(init, idx);
      MessagesSnoc(rows, idx);
      var message := MessageOf(row, idx);
      var f0, m0 := Scan(init, idx), Messages(init, idx);
      if message != [] {
        if Unterminated(m0) {
          AbsorbIntoOpen(f0, m0, message, RowDate(row));
        } else {
          AbsorbAfterClosed(f0, m0, message, RowDate(row));
        }
      } else {
        assert Messages(rows, idx) == m0;
      }
    }
  }

  /** Flushing a state that tracks the messages yields the texts of all their groups. */
  lemma FlushTexts(f: Fold, msgs: seq<string>)
    requires |f.texts| == |f.dates| && Tracks(f, msgs)
    ensures Flush(f).texts == Texts(Groups(msgs))
  {
    var g := Groups(msgs);
    if Unterminated(msgs) {
      assert g == g[..|g| - 1] + [g[|g| - 1]];
      TextsSnoc(g[..|g| - 1], g[|g| - 1]);
    }
  }

  /** The blocks' texts are the block texts of the groups: every emitted text is the
      normalised single-space join of one group's fragments, in order. */
  lemma SegmentTexts(rows: seq<Row>, idx: nat)
    ensures Segment(rows, idx).texts == Texts(Groups(Messages(rows, idx)))
  {
    ScanGroups(rows, idx);
    FlushTexts(Scan(rows, idx), Messages(rows, idx));
  }

  /** One record per period-terminated message, plus one for a trailing unterminated buffer. */
  lemma BlockCount(rows: seq<Row>, idx: nat)
    ensures var m := Messages(rows, idx);
      && |Segment(rows, idx).texts| == |Segment(rows, idx).dates|
      && |Segment(rows, idx).texts| == CountClosed(m) + (if Unterminated(m) then 1 else 0)
      && |RecordsOf(rows, idx)| == |Segment(rows, idx).texts|
  {
    ScanCount(rows, idx);
    ScanGroups(rows, idx);
  }

  /** Every emitted text is normalised: no whitespace at either end, no two
      whitespace characters together, and normalising it again changes nothing. */
  lemma SegmentTextsNormal(rows: seq<Row>, idx: nat)
    ensures forall b :: 0 <= b < |Segment(rows, idx).texts| ==>
      && IsNormal(Segment(rows, idx).texts[b])
      && Normalize(Segment(rows, idx).texts[b]) == Segment(rows, idx).texts[b]
  {
    SegmentTexts(rows, idx);
    forall b | 0 <= b < |Segment(rows, idx).texts|
      ensures IsNormal(Segment(rows, idx).texts[b])
      ensures Normalize(Segment(rows, idx).texts[b]) == Segment(rows, idx).texts[b]
    {
      var g := Groups(Messages(rows, idx));
      NormalizeIsNormal(Join(g[b], " "));
      NormalizeIdempotent(Join(g[b], " "));
    }
  }

  /** A normalised text has no line break: its only whitespace is plain spaces. */
  lemma NormalHasNoBreak(s: string)
    requires IsNormal(s)
    ensures forall k :: 0 <= k < |s| ==> !IsLineTerminator(s[k])
  {
    forall k | 0 <= k < |s| ensures !IsLineTerminator(s[k]) {
      if IsLineTerminator(s[k]) {
        LineTerminatorIsSpace(s[k]);
      }
    }
  }

  /** Record `k` is block `k`: its Message Text is the block's text verbatim, its
      Date/Time the block's date, and, the text having no line break, its Name the
      text between the first two quotes. */
  lemma RecordsSpec(rows: seq<Row>, idx: nat)
    ensures var r, b := RecordsOf(rows, idx), Segment(rows, idx);
      forall k :: 0 <= k < |r| ==>
        && r[k].messageText == b.texts[k]
        && r[k].dateTime == b.dates[k]
        && r[k].name == BetweenFirstQuotes(b.texts[k])
  {
    var r, b := RecordsOf(rows, idx), Segment(rows, idx);
    SegmentTextsNormal(rows, idx);
    forall k | 0 <= k < |r|
      ensures r[k].name == BetweenFirstQuotes(b.texts[k])
    {
      NormalHasNoBreak(b.texts[k]);
      NameWithoutLineBreaks(b.texts[k]);
    }
  }

  // ---------------------------------------------------------------------------
  // Dates
  // ---------------------------------------------------------------------------

  /** `LastSome` finds nothing exactly when nothing is present, and otherwise an
      entry after which nothing is present. */
  lemma {:induction false} LastSomeSpec<T>(s: seq<Option<T>>)
    ensures LastSome(s).None? <==> forall k :: 0 <= k < |s| ==> s[k].None?
    ensures LastSome(s).Some? ==>
      exists k :: 0 <= k < |s| && s[k] == LastSome(s) && forall j :: k < j < |s| ==> s[j].None?
  {
    if s != [] {
      var n := |s|;
      var init := s[..n - 1];
      LastSomeSpec(init);
      if s[n - 1].None? {
        assert LastSome(s) == LastSome(init);
        assert forall k :: 0 <= k < n - 1 ==> s[k] == init[k];
        if LastSome(init).Some? {
          var k :| 0 <= k < n - 1 && init[k] == LastSome(init) && forall j :: k < j < n - 1 ==> init[j].None?;
          assert s[k] == LastSome(s);
          forall j | k < j < n ensures s[j].None? {
            if j < n - 1 {
              assert s[j] == init[j];
            }
          }
        }
      } else {
        assert LastSome(s) == s[n - 1];
        assert !s[n - 1].None?;
      }
    }
  }

  /** `lastDate` is "" exactly when no row with a non-blank message holds a stamp;
      otherwise it is the stamp of the last such row. */
  lemma LatestDateSpec(rows: seq<Row>, idx: nat)
    ensures LatestDate(rows, idx) == [] <==> forall k :: 0 <= k < |rows| ==> Stamp(rows[k], idx).None?
    ensures LatestDate(rows, idx) != [] ==>
      exists k :: 0 <= k < |rows| && Stamp(rows[k], idx) == Some(LatestDate(rows, idx))
        && forall j :: k < j < |rows| ==> Stamp(rows[j], idx).None?
  {
    var st := Stamps(rows, idx);
    LastSomeSpec(st);
    assert forall k :: 0 <= k < |rows| ==> st[k] == Stamp(rows[k], idx);
    if LastSome(st).Some? {
      var k :| 0 <= k < |st| && st[k] == LastSome(st) && forall j :: k < j < |st| ==> st[j].None?;
      assert Stamp(rows[k], idx) == Some(LatestDate(rows, idx));
    }
  }

  lemma LastSomeSnoc<T>(s: seq<Option<T>>, x: Option<T>)
    ensures LastSome(s + [x]) == if x.Some? then x else LastSome(s)
  {
    assert (s + [x])[..|s|] == s;
  }

  lemma StampsSnoc(rows: seq<Row>, idx: nat)
    requires rows != []
    ensures Stamps(rows, idx) == Stamps(rows[..|rows| - 1], idx) + [Stamp(rows[|rows| - 1], idx)]
  {
    var a, b := Stamps(rows, idx), Stamps(rows[..|rows| - 1], idx) + [Stamp(rows[|rows| - 1], idx)];
    assert |a| == |b|;
    forall k | 0 <= k < |a| ensures a[k] == b[k] {
      assert a[k] == Stamp(rows[k], idx);
      if k < |rows| - 1 {
        assert rows[..|rows| - 1][k] == rows[k];
        assert b[k] == Stamps(rows[..|rows| - 1], idx)[k];
      } else {
        assert b[k] == Stamp(rows[|rows| - 1], idx);
      }
    }
  }

  /** After any prefix of the rows, `lastDate` is the latest stamp. */
  lemma {:induction false} ScanLastDate(rows: seq<Row>, idx: nat)
    ensures Scan(rows, idx).lastDate == LatestDate(rows, idx)
  {
    if rows != [] {
      var init, row := rows[..|rows| - 1], rows[|rows| - 1];
      ScanLastDate(init, idx);
      StampsSnoc(rows, idx);
      LastSomeSnoc(Stamps(init, idx), Stamp(row, idx));
    }
  }

  lemma StepExtends(f: Fold, row: Row, idx: nat)
    ensures f.texts <= Step(f, row, idx).texts && f.dates <= Step(f, row, idx).dates
  {
  }

  /** The loop only ever appends to the emitted texts and dates. */
  lemma {:induction false} ScanMonotone(rows: seq<Row>, k: nat, idx: nat)
    requires k <= |rows|
    ensures Scan(rows[..k], idx).texts <= Scan(rows, idx).texts
    ensures Scan(rows[..k], idx).dates <= Scan(rows, idx).dates
    decreases |rows|
  {
    if k < |rows| {
      var init := rows[..|rows| - 1];
      assert init[..k] == rows[..k];
      ScanMonotone(init, k, idx);
      StepExtends(Scan(init, idx), rows[|rows| - 1], idx);
    } else {
      assert rows[..k] == rows;
    }
  }

  /** A prefix of the rows emits a prefix of the blocks. */
  lemma ScanPrefix(rows: seq<Row>, k: nat, idx: nat)
    requires k <= |rows|
    ensures Scan(rows[..k], idx).texts <= Segment(rows, idx).texts
    ensures Scan(rows[..k], idx).dates <= Segment(rows, idx).dates
  {
    ScanMonotone(rows, k, idx);
  }

  /** Forward propagation: the block a row closes carries the stamp of the most
      recent row up to and including that row that has one. */
  lemma ClosingRowDate(rows: seq<Row>, idx: nat, k: nat)
    requires k < |rows| && EndsWithPeriod(MessageOf(rows[k], idx))
    ensures var b := CountClosed(Messages(rows[..k], idx));
      && b < |Segment(rows, idx).dates|
      && Segment(rows, idx).dates[b] == LatestDate(rows[..k + 1], idx)
  {
    var b := CountClosed(Messages(rows[..k], idx));
    var after := Scan(rows[..k + 1], idx);
    assert |after.dates| == b + 1 && after.dates[b] == after.lastDate by {
      ScanCount(rows[..k], idx);
      ScanSnoc(rows, k, idx);
    }
    ScanLastDate(rows[..k + 1], idx);
    ScanPrefix(rows, k + 1, idx);
  }

  /** A trailing unterminated block carries the stamp of the most recent dated row of all. */
  lemma TrailingBlockDate(rows: seq<Row>, idx: nat)
    requires Unterminated(Messages(rows, idx))
    ensures var d := Segment(rows, idx).dates;
      |d| > 0 && d[|d| - 1] == LatestDate(rows, idx)
  {
    ScanGroups(rows, idx);
    ScanLastDate(rows, idx);
  }

  // ---------------------------------------------------------------------------
  // Rows whose message is blank
  // ---------------------------------------------------------------------------

  /** A row whose message trims to "" leaves the whole loop state untouched, including
      `lastDate`, whatever stamp its other cells hold. */
  lemma {:induction false} BlankRowIgnored(before: seq<Row>, blank: Row, after: seq<Row>, idx: nat)
    requires MessageOf(blank, idx) == []
    ensures Scan(before + [blank] + after, idx) == Scan(before + after, idx)
    decreases |after|
  {
    if after == [] {
      assert before + [blank] + after == before + [blank] && before + after == before;
      BlankStep(before, blank, idx);
    } else {
      var init, last := after[..|after| - 1], after[|after| - 1];
      BlankRowIgnored(before, blank, init, idx);
      assert after == init + [last];
      ScanCongruent(before + [blank] + init, before + init, last, before + [blank] + after, before + after, idx);
    }
  }

  /** A row whose message is blank leaves the loop state as it was. */
  lemma BlankStep(rows: seq<Row>, blank: Row, idx: nat)
    requires MessageOf(blank, idx) == []
    ensures Scan(rows + [blank], idx) == Scan(rows, idx)
  {
    ScanAppendOne(rows, blank, idx);
  }

  /** Rows that leave the same loop state still do after one more row. */
  lemma ScanCongruent(x: seq<Row>, y: seq<Row>, row: Row, x': seq<Row>, y': seq<Row>, idx: nat)
    requires Scan(x, idx) == Scan(y, idx)
    requires x' == x + [row] && y' == y + [row]
    ensures Scan(x', idx) == Scan(y', idx)
  {
    ScanAppendOne(x, row, idx);
    ScanAppendOne(y, row, idx);
  }

  /** The loop state after one more row, stated on the extended rows. */
  lemma ScanAppendOne(rows: seq<Row>, row: Row, idx: nat)
    ensures Scan(rows + [row], idx) == Step(Scan(rows, idx), row, idx)
  {
    assert (rows + [row])[..|rows|] == rows;
  }

  /** So the records do not depend on blank rows either. */
  lemma BlankRowRecords(before: seq<Row>, blank: Row, after: seq<Row>, idx: nat)
    requires MessageOf(blank, idx) == []
    ensures RecordsOf(before + [blank] + after, idx) == RecordsOf(before + after, idx)
  {
    BlankRowIgnored(before, blank, after, idx);
  }
}
