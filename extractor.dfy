/** The field extractor: from one reconstructed message text and its date, the
    six-field record. Four independent pattern rules, each falling back to "". */
module Extractor {
  import opened Wrappers
  import opened Chars
  import opened Patterns

  /** One output record: Numero, Name, Door Name, Message Type, Message Text, Date/Time. */
  datatype Record = Record(
    numero: string,
    name: string,
    doorName: string,
    messageType: string,
    messageText: string,
    dateTime: string)

  /** Numero: the digits of the leftmost `(Card: <digits>)`, or "". */
  function Numero(text: string): (r: string)
    ensures forall k :: 0 <= k < |r| ==> IsDigit(r[k])
  {
    match Leftmost(text, 0, CardAt)
    case Some((p, x)) => CardAtDigits(text, p, x); x
    case None => []
  }

  /** Name: the text of the leftmost quoted span, or "". */
  function Name(text: string): (r: string)
    ensures '\'' !in r
  {
    match Leftmost(text, 0, QuotedAt)
    case Some((_, x)) => x
    case None => []
  }

  /** Door Name: the quoted span after the leftmost `en` + whitespace, or "". */
  function DoorName(text: string): (r: string)
    ensures '\'' !in r
  {
    match Leftmost(text, 0, DoorAt)
    case Some((_, x)) => x
    case None => []
  }

  /** The three event types, in the order the alternation tries them. */
  const EventTypes: seq<string> := ["admitido", "denegado", "rechazado"]

  /** Message Type: the event type the text begins with, as spelled there, or "". */
  function MessageType(text: string): (r: string)
    ensures |r| <= |text| && r == text[..|r|]
  {
    if CiAt(text, 0, EventTypes[0]) then text[..8]
    else if CiAt(text, 0, EventTypes[1]) then text[..8]
    else if CiAt(text, 0, EventTypes[2]) then text[..9]
    else []
  }

  /** `s` lower-cased letter by letter. */
  function LowerAll(s: string): (r: string)
    ensures |r| == |s|
    ensures forall k :: 0 <= k < |s| ==> r[k] == Lower(s[k])
  {
    if s == [] then [] else [Lower(s[0])] + LowerAll(s[1..])
  }

  /** `parseMessageTextWithDate` (src/index.js), a total function. */
  function ParseWithDate(text: string, date: string): (r: Record)
    ensures r.messageText == text && r.dateTime == date
    ensures forall k :: 0 <= k < |r.numero| ==> IsDigit(r.numero[k])
    ensures '\'' !in r.name && '\'' !in r.doorName
    ensures |r.messageType| <= |text| && r.messageType == text[..|r.messageType|]
  {
    Record(Numero(text), Name(text), DoorName(text), MessageType(text), text, date)
  }

  /** Message Type is non-empty exactly when the text starts with one of the three
      event words, ignoring case; then it is that prefix as spelled in the text. */
  lemma MessageTypeSpec(text: string)
    ensures MessageType(text) != [] <==> exists w :: w in EventTypes && CiAt(text, 0, w)
    ensures MessageType(text) != [] ==>
      && MessageType(text) == text[..|MessageType(text)|]
      && LowerAll(MessageType(text)) in EventTypes
  {
    var r := MessageType(text);
    if r != [] {
      var w := if CiAt(text, 0, EventTypes[0]) then EventTypes[0]
               else if CiAt(text, 0, EventTypes[1]) then EventTypes[1] else EventTypes[2];
      assert CiAt(text, 0, w);
      assert LowerAll(r) == w by {
        forall k | 0 <= k < |w| ensures LowerAll(r)[k] == w[k] {
          assert text[0 + k] == r[k];
        }
      }
    }
  }

  /** Numero is "" exactly when the text holds no card group; otherwise it is the
      digits of the leftmost one. */
  lemma NumeroSpec(text: string)
    ensures Numero(text) == [] <==> forall p: nat, q: nat, e: nat :: !CardMatch(text, p, q, e)
    ensures Numero(text) != [] ==>
      exists p: nat, q: nat, e: nat ::
        && CardMatch(text, p, q, e) && Numero(text) == text[q..e]
        && forall p': nat, q': nat, e': nat :: p' < p ==> !CardMatch(text, p', q', e')
  {
    var r := Leftmost(text, 0, CardAt);
    LeftmostSpec(text, 0, CardAt);
    if r.Some? {
      var (p, x) := r.value;
      CardAtSpec(text, p, x);
      var q: nat, e: nat :| CardMatch(text, p, q, e) && x == text[q..e];
      assert x != [];
      forall p': nat, q': nat, e': nat | p' < p ensures !CardMatch(text, p', q', e') {
        if CardMatch(text, p', q', e') {
          CardAtComplete(text, p', q', e');
        }
      }
    } else {
      forall p: nat, q: nat, e: nat ensures !CardMatch(text, p, q, e) {
        if CardMatch(text, p, q, e) {
          CardAtComplete(text, p, q, e);
        }
      }
    }
  }

  /** Name is "" when no lazily quoted span exists; otherwise it is the content of
      the leftmost one (possibly "", for two adjacent quotes). */
  lemma NameSpec(text: string)
    ensures (forall p: nat, q: nat :: !LazyQuote(text, p, q)) ==> Name(text) == []
    ensures (exists p: nat, q: nat :: LazyQuote(text, p, q)) ==>
      exists p: nat, q: nat ::
        && LazyQuote(text, p, q) && Name(text) == text[p + 1..q]
        && forall p': nat, q': nat :: p' < p ==> !LazyQuote(text, p', q')
  {
    var r := Leftmost(text, 0, QuotedAt);
    LeftmostSpec(text, 0, QuotedAt);
    if r.Some? {
      var (p, x) := r.value;
      QuotedAtSpec(text, p, x);
      var q: nat :| LazyQuote(text, p, q) && x == text[p + 1..q];
      forall p': nat, q': nat | p' < p ensures !LazyQuote(text, p', q') {
        if LazyQuote(text, p', q') {
          QuotedAtComplete(text, p', q');
        }
      }
    } else {
      forall p: nat, q: nat ensures !LazyQuote(text, p, q) {
        if LazyQuote(text, p, q) {
          QuotedAtComplete(text, p, q);
        }
      }
    }
  }

  /** Door Name is "" when no `en`-whitespace-quote match exists; otherwise it is the
      quoted span of the leftmost one. */
  lemma DoorNameSpec(text: string)
    ensures (forall p: nat, q: nat, e: nat :: !DoorMatch(text, p, q, e)) ==> DoorName(text) == []
    ensures (exists p: nat, q: nat, e: nat :: DoorMatch(text, p, q, e)) ==>
      exists p: nat, q: nat, e: nat ::
        && DoorMatch(text, p, q, e) && DoorName(text) == text[q + 1..e]
        && forall p': nat, q': nat, e': nat :: p' < p ==> !DoorMatch(text, p', q', e')
  {
    var r := Leftmost(text, 0, DoorAt);
    LeftmostSpec(text, 0, DoorAt);
    if r.Some? {
      var (p, x) := r.value;
      DoorAtSpec(text, p, x);
      forall p': nat, q': nat, e': nat | p' < p ensures !DoorMatch(text, p', q', e') {
        if DoorMatch(text, p', q', e') {
          DoorAtComplete(text, p', q', e');
        }
      }
    } else {
      forall p: nat, q: nat, e: nat ensures !DoorMatch(text, p, q, e) {
        if DoorMatch(text, p, q, e) {
          DoorAtComplete(text, p, q, e);
        }
      }
    }
  }

  /** The first quote at or after `i`, or `|s|`. */
  function NextQuote(s: string, i: nat): (q: nat)
    requires i <= |s|
    ensures i <= q <= |s|
    ensures q < |s| ==> s[q] == '\''
    ensures forall k :: i <= k < q ==> s[k] != '\''
    decreases |s| - i
  {
    if i == |s| || s[i] == '\'' then i else NextQuote(s, i + 1)
  }

  /** The text between the first two quotes, or "" when there are fewer than two. */
  function BetweenFirstQuotes(s: string): string
  {
    var p := NextQuote(s, 0);
    if p < |s| && NextQuote(s, p + 1) < |s| then s[p + 1..NextQuote(s, p + 1)] else []
  }

  /** For a text without line breaks (every text the segmenter emits), Name is
      simply the text between the first two quotes. */
  lemma NameWithoutLineBreaks(text: string)
    requires forall k :: 0 <= k < |text| ==> !IsLineTerminator(text[k])
    ensures Name(text) == BetweenFirstQuotes(text)
  {
    var p := NextQuote(text, 0);
    forall k | 0 <= k < p ensures QuotedAt(text, k).None? {
    }
    if p < |text| {
      var q := NextQuote(text, p + 1);
      assert StopAt(text, p + 1) == q by {
        StopAtNoBreaks(text, p + 1);
      }
      if q == |text| {
        assert forall k :: p < k <= |text| ==> QuotedAt(text, k).None?;
        LeftmostNone(text, 0, QuotedAt);
      } else {
        LeftmostAt(text, 0, p, QuotedAt);
      }
    } else {
      LeftmostNone(text, 0, QuotedAt);
    }
  }

  lemma {:induction false} StopAtNoBreaks(s: string, i: nat)
    requires i <= |s|
    requires forall k :: 0 <= k < |s| ==> !IsLineTerminator(s[k])
    ensures StopAt(s, i) == NextQuote(s, i)
    decreases |s| - i
  {
    if i < |s| && s[i] != '\'' {
      StopAtNoBreaks(s, i + 1);
    }
  }
}
