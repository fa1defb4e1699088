/** Hand-written matchers, one per regular expression of the reconstruction engine.
    Each matcher tries one start position, the way a backtracking engine does, and
    `Leftmost` tries the start positions in order, as `String.prototype.match` does
    for a pattern without the `g` flag. Beside each matcher stands the language of
    its pattern, written declaratively, and a lemma that the two agree. */
module Patterns {
  import opened Wrappers
  import opened Chars

  /** `s[i..j]` is all digits. */
  predicate DigitsIn(s: string, i: nat, j: nat)
  {
    i <= j <= |s| && forall k | i <= k < j :: IsDigit(s[k])
  }

  /** `s[i..j]` is all whitespace. */
  predicate SpacesIn(s: string, i: nat, j: nat)
  {
    i <= j <= |s| && forall k | i <= k < j :: IsSpace(s[k])
  }

  /** Length of the run of digits that starts at `i`. */
  function DigitRun(s: string, i: nat): (n: nat)
    requires i <= |s|
    ensures i + n <= |s|
    ensures i + n == |s| || !IsDigit(s[i + n])
    decreases |s| - i
  {
    if i < |s| && IsDigit(s[i]) then 1 + DigitRun(s, i + 1) else 0
  }

  /** The greedy digit run is all digits. */
  lemma {:induction false} DigitRunSpec(s: string, i: nat)
    requires i <= |s|
    ensures DigitsIn(s, i, i + DigitRun(s, i))
    decreases |s| - i
  {
    if i < |s| && IsDigit(s[i]) {
      DigitRunSpec(s, i + 1);
    }
  }

  /** Length of the run of whitespace that starts at `i`. */
  function SpaceRun(s: string, i: nat): (n: nat)
    requires i <= |s|
    ensures i + n <= |s|
    ensures i + n == |s| || !IsSpace(s[i + n])
    decreases |s| - i
  {
    if i < |s| && IsSpace(s[i]) then 1 + SpaceRun(s, i + 1) else 0
  }

  /** The greedy whitespace run is all whitespace. */
  lemma {:induction false} SpaceRunSpec(s: string, i: nat)
    requires i <= |s|
    ensures SpacesIn(s, i, i + SpaceRun(s, i))
    decreases |s| - i
  {
    if i < |s| && IsSpace(s[i]) {
      SpaceRunSpec(s, i + 1);
    }
  }

  /** A run of digits ended by a non-digit is the whole run: greedy and backtracking agree. */
  lemma {:induction false} DigitRunMaximal(s: string, i: nat, j: nat)
    requires DigitsIn(s, i, j) && (j == |s| || !IsDigit(s[j]))
    ensures DigitRun(s, i) == j - i
    decreases j - i
  {
    if i < j {
      DigitRunMaximal(s, i + 1, j);
    }
  }

  lemma {:induction false} SpaceRunMaximal(s: string, i: nat, j: nat)
    requires SpacesIn(s, i, j) && (j == |s| || !IsSpace(s[j]))
    ensures SpaceRun(s, i) == j - i
    decreases j - i
  {
    if i < j {
      SpaceRunMaximal(s, i + 1, j);
    }
  }

  /** `s[p..]` starts with `lit` under the `i` flag; `lit` is written in lower case. */
  predicate CiAt(s: string, p: nat, lit: string)
  {
    p + |lit| <= |s| && forall k | 0 <= k < |lit| :: Lower(s[p + k]) == lit[k]
  }

  /** The leftmost start position from `from` on at which matcher `m` succeeds, with what it found. */
  function Leftmost<T>(s: string, from: nat, m: (string, nat) -> Option<T>): (r: Option<(nat, T)>)
    requires from <= |s|
    ensures r.Some? ==> from <= r.value.0 <= |s| && m(s, r.value.0) == Some(r.value.1)
    decreases |s| - from
  {
    match m(s, from)
    case Some(x) => Some((from, x))
    case None => if from == |s| then None else Leftmost(s, from + 1, m)
  }

  /** The search finds the first position at which the matcher succeeds, and none
      only when it succeeds nowhere. */
  lemma {:induction false} LeftmostSpec<T>(s: string, from: nat, m: (string, nat) -> Option<T>)
    requires from <= |s|
    ensures var r := Leftmost(s, from, m);
      r.Some? ==> forall k :: from <= k < r.value.0 ==> m(s, k).None?
    ensures Leftmost(s, from, m).None? ==> forall k :: from <= k <= |s| ==> m(s, k).None?
    decreases |s| - from
  {
    if m(s, from).None? && from < |s| {
      LeftmostSpec(s, from + 1, m);
    }
  }

  /** The leftmost search is decided by where the matcher first succeeds. */
  lemma LeftmostAt<T>(s: string, from: nat, p: nat, m: (string, nat) -> Option<T>)
    requires from <= p <= |s| && m(s, p).Some?
    requires forall k :: from <= k < p ==> m(s, k).None?
    ensures Leftmost(s, from, m) == Some((p, m(s, p).value))
  {
    LeftmostSpec(s, from, m);
    var r := Leftmost(s, from, m);
    assert r.Some? && r.value.0 == p;
  }

  lemma LeftmostNone<T>(s: string, from: nat, m: (string, nat) -> Option<T>)
    requires from <= |s|
    requires forall k :: from <= k <= |s| ==> m(s, k).None?
    ensures Leftmost(s, from, m).None?
  {
    LeftmostSpec(s, from, m);
  }
  // ---------------------------------------------------------------------------
  // The date/time stamp  \b\d{1,2}[\/\-]\d{1,2}[\/\-]\d{2,4}\s+\d{1,2}:\d{2}:\d{2}\b
  // ---------------------------------------------------------------------------

  predicate IsDateSep(c: char)
  {
    c == '/' || c == '-'
  }

  /** `\b` at position `p`. */
  predicate Boundary(s: string, p: nat)
    requires p <= |s|
  {
    (p > 0 && IsWordChar(s[p - 1])) != (p < |s| && IsWordChar(s[p]))
  }

  /** One item of the stamp pattern between its two `\b`. */
  datatype Token =
    | Digits(lo: nat, hi: nat)  // \d{lo,hi}
    | DateSep                   // [\/\-]
    | Colon                     // :
    | Gap                       // \s+

  /** `\d{1,2}[\/\-]\d{1,2}[\/\-]\d{2,4}\s+\d{1,2}:\d{2}:\d{2}` */
  function StampTokens(): seq<Token>
  {
    [Digits(1, 2), DateSep, Digits(1, 2), DateSep, Digits(2, 4), Gap, Digits(1, 2), Colon, Digits(2, 2), Colon, Digits(2, 2)]
  }

  /** The tokens matched greedily from `i`, each digit or whitespace run taken whole: where they end. */
  function TokensEnd(s: string, toks: seq<Token>, i: nat): (r: Option<nat>)
    requires i <= |s|
    ensures r.Some? ==> i <= r.value <= |s|
    decreases |toks|
  {
    if toks == [] then Some(i)
    else
      match toks[0]
      case Digits(lo, hi) =>
        var e := i + DigitRun(s, i);
        if lo <= e - i <= hi then TokensEnd(s, toks[1..], e) else None
      case DateSep => if i < |s| && IsDateSep(s[i]) then TokensEnd(s, toks[1..], i + 1) else None
      case Colon => if i < |s| && s[i] == ':' then TokensEnd(s, toks[1..], i + 1) else None
      case Gap =>
        var e := i + SpaceRun(s, i);
        if i < e then TokensEnd(s, toks[1..], e) else None
  }

  /** The date pattern tried at `i`: where the match ends. */
  function DateAt(s: string, i: nat): (r: Option<nat>)
    ensures r.Some? ==> i < r.value <= |s|
  {
    if i <= |s| && Boundary(s, i) then
      match TokensEnd(s, StampTokens(), i)
      case Some(f) => if i < f && Boundary(s, f) then Some(f) else None
      case None => None
    else None
  }

  // The language of the date pattern, one token at a time, allowing every repetition count.

  /** `s[i..f]` is matched by the tokens, each repetition of any allowed length. */
  ghost predicate TokensSpan(s: string, toks: seq<Token>, i: nat, f: nat)
    decreases |toks|
  {
    if toks == [] then f == i <= |s|
    else
      match toks[0]
      case Digits(lo, hi) => exists e :: i + lo <= e <= i + hi && DigitsIn(s, i, e) && TokensSpan(s, toks[1..], e, f)
      case DateSep => i < |s| && IsDateSep(s[i]) && TokensSpan(s, toks[1..], i + 1, f)
      case Colon => i < |s| && s[i] == ':' && TokensSpan(s, toks[1..], i + 1, f)
      case Gap => exists e :: i < e && SpacesIn(s, i, e) && TokensSpan(s, toks[1..], e, f)
  }

  /** `s[i..f]` is a match of the date pattern. */
  ghost predicate DateMatch(s: string, i: nat, f: nat)
  {
    i <= f <= |s| && Boundary(s, i) && TokensSpan(s, StampTokens(), i, f) && Boundary(s, f)
  }

  /** Taking runs whole is safe when every digit run is non-empty and followed by a
      token that cannot start with a digit (or by nothing), and every whitespace run
      by a token that cannot start with whitespace. */
  predicate Greedy(toks: seq<Token>)
    decreases |toks|
  {
    toks == [] || (GreedyHead(toks) && Greedy(toks[1..]))
  }

  /** The condition `Greedy` puts on the first token. */
  predicate GreedyHead(toks: seq<Token>)
    requires toks != []
  {
    match toks[0]
    case Digits(lo, hi) => 1 <= lo && (|toks| == 1 || !toks[1].Digits?)
    case Gap => |toks| > 1 && !toks[1].Gap?
    case _ => true
  }

  /** A spanned stretch lies inside `s`, and a greedy-safe token list spans at least one character. */
  lemma {:induction false} TokensSpanBounds(s: string, toks: seq<Token>, i: nat, f: nat)
    requires TokensSpan(s, toks, i, f)
    ensures i <= f <= |s|
    ensures toks != [] && Greedy(toks) ==> i < f
    decreases |toks|
  {
    if toks != [] {
      match toks[0]
      case Digits(lo, hi) =>
        var e :| i + lo <= e <= i + hi && DigitsIn(s, i, e) && TokensSpan(s, toks[1..], e, f);
        TokensSpanBounds(s, toks[1..], e, f);
        if Greedy(toks) {
          assert GreedyHead(toks);
        }
      case DateSep => TokensSpanBounds(s, toks[1..], i + 1, f);
      case Colon => TokensSpanBounds(s, toks[1..], i + 1, f);
      case Gap =>
        var e :| i < e && SpacesIn(s, i, e) && TokensSpan(s, toks[1..], e, f);
        TokensSpanBounds(s, toks[1..], e, f);
    }
  }

  /** The first character of a spanned stretch is of the first token's kind. */
  lemma TokensSpanStart(s: string, toks: seq<Token>, i: nat, f: nat)
    requires toks != [] && Greedy(toks) && TokensSpan(s, toks, i, f)
    ensures i < |s|
    ensures toks[0].Digits? ==> IsDigit(s[i])
    ensures toks[0].Gap? ==> IsSpace(s[i])
    ensures toks[0].DateSep? ==> IsDateSep(s[i])
    ensures toks[0].Colon? ==> s[i] == ':'
    ensures !toks[0].Digits? ==> !IsDigit(s[i])
    ensures !toks[0].Gap? ==> !IsSpace(s[i])
  {
    match toks[0]
    case Digits(lo, hi) =>
      var e :| i + lo <= e <= i + hi && DigitsIn(s, i, e) && TokensSpan(s, toks[1..], e, f);
    case DateSep =>
    case Colon =>
    case Gap =>
      var e :| i < e && SpacesIn(s, i, e) && TokensSpan(s, toks[1..], e, f);
  }

  /** A stretch spanned by tokens ending in a digit run ends with a digit. */
  lemma {:induction false} TokensSpanEnd(s: string, toks: seq<Token>, i: nat, f: nat)
    requires toks != [] && Greedy(toks) && toks[|toks| - 1].Digits? && TokensSpan(s, toks, i, f)
    ensures 0 < f <= |s| && IsDigit(s[f - 1])
    decreases |toks|
  {
    var rest := toks[1..];
    if rest != [] {
      assert rest[|rest| - 1] == toks[|toks| - 1];
    }
    match toks[0]
    case Digits(lo, hi) =>
      var e :| i + lo <= e <= i + hi && DigitsIn(s, i, e) && TokensSpan(s, rest, e, f);
      if rest == [] {
        assert IsDigit(s[e - 1]);
      } else {
        TokensSpanEnd(s, rest, e, f);
      }
    case DateSep => TokensSpanEnd(s, rest, i + 1, f);
    case Colon => TokensSpanEnd(s, rest, i + 1, f);
    case Gap =>
      var e :| i < e && SpacesIn(s, i, e) && TokensSpan(s, rest, e, f);
      TokensSpanEnd(s, rest, e, f);
  }

  /** What the greedy matcher finds is spanned by the tokens. */
  lemma {:induction false} TokensEndSound(s: string, toks: seq<Token>, i: nat, f: nat)
    requires i <= |s| && TokensEnd(s, toks, i) == Some(f)
    ensures TokensSpan(s, toks, i, f)
    decreases |toks|
  {
    if toks != [] {
      match toks[0]
      case Digits(lo, hi) =>
        var e := i + DigitRun(s, i);
        DigitRunSpec(s, i);
        TokensEndSound(s, toks[1..], e, f);
      case DateSep => TokensEndSound(s, toks[1..], i + 1, f);
      case Colon => TokensEndSound(s, toks[1..], i + 1, f);
      case Gap =>
        var e := i + SpaceRun(s, i);
        SpaceRunSpec(s, i);
        TokensEndSound(s, toks[1..], e, f);
    }
  }

  /** Every stretch the tokens span, not followed by a digit, is what the greedy matcher finds. */
  lemma {:induction false} TokensEndComplete(s: string, toks: seq<Token>, i: nat, f: nat)
    requires Greedy(toks) && TokensSpan(s, toks, i, f) && f <= |s| && (f == |s| || !IsDigit(s[f]))
    ensures i <= |s| && TokensEnd(s, toks, i) == Some(f)
    decreases |toks|, 1
  {
    TokensSpanBounds(s, toks, i, f);
    if toks != [] {
      var rest := toks[1..];
      assert GreedyHead(toks) && Greedy(rest);
      match toks[0]
      case Digits(lo, hi) =>
        var e :| i + lo <= e <= i + hi && DigitsIn(s, i, e) && TokensSpan(s, rest, e, f);
        DigitsEndComplete(s, toks, i, e, f);
      case DateSep => TokensEndComplete(s, rest, i + 1, f);
      case Colon => TokensEndComplete(s, rest, i + 1, f);
      case Gap =>
        var e :| i < e && SpacesIn(s, i, e) && TokensSpan(s, rest, e, f);
        GapEndComplete(s, toks, i, e, f);
    }
  }

  /** The step of `TokensEndComplete` for a leading digit run `s[i..e]`. */
  lemma {:induction false} DigitsEndComplete(s: string, toks: seq<Token>, i: nat, e: nat, f: nat)
    requires toks != [] && toks[0].Digits? && GreedyHead(toks) && Greedy(toks[1..])
    requires i + toks[0].lo <= e <= i + toks[0].hi && DigitsIn(s, i, e) && TokensSpan(s, toks[1..], e, f)
    requires f <= |s| && (f == |s| || !IsDigit(s[f]))
    ensures TokensEnd(s, toks, i) == Some(f)
    decreases |toks|, 0
  {
    var rest := toks[1..];
    if rest != [] {
      TokensSpanStart(s, rest, e, f);
    } else {
      assert e == f;
    }
    DigitRunMaximal(s, i, e);
    TokensEndComplete(s, rest, e, f);
  }

  /** The step of `TokensEndComplete` for a leading whitespace run `s[i..e]`. */
  lemma {:induction false} GapEndComplete(s: string, toks: seq<Token>, i: nat, e: nat, f: nat)
    requires toks != [] && toks[0].Gap? && GreedyHead(toks) && Greedy(toks[1..])
    requires i < e && SpacesIn(s, i, e) && TokensSpan(s, toks[1..], e, f)
    requires f <= |s| && (f == |s| || !IsDigit(s[f]))
    ensures TokensEnd(s, toks, i) == Some(f)
    decreases |toks|, 0
  {
    var rest := toks[1..];
    TokensSpanStart(s, rest, e, f);
    SpaceRunMaximal(s, i, e);
    TokensEndComplete(s, rest, e, f);
  }

  /** The stamp pattern is safe to match greedily. */
  lemma StampTokensGreedy()
    ensures Greedy(StampTokens())
  {
    var t := StampTokens();
    assert Greedy(t[10..]);
    assert Greedy(t[9..]);
    assert Greedy(t[8..]);
    assert Greedy(t[7..]);
    assert Greedy(t[6..]);
    assert Greedy(t[5..]);
    assert Greedy(t[4..]);
    assert Greedy(t[3..]);
    assert Greedy(t[2..]);
    assert Greedy(t[1..]);
  }

  /** The date matcher succeeds at `i`, ending at `f`, exactly when `s[i..f]` is in the pattern's language. */
  lemma DateAtSpec(s: string, i: nat, f: nat)
    ensures DateAt(s, i) == Some(f) <==> DateMatch(s, i, f)
  {
    if DateAt(s, i) == Some(f) {
      TokensEndSound(s, StampTokens(), i, f);
    }
    if DateMatch(s, i, f) {
      StampTokensGreedy();
      TokensSpanBounds(s, StampTokens(), i, f);
      TokensSpanEnd(s, StampTokens(), i, f);
      TokensEndComplete(s, StampTokens(), i, f);
    }
  }

  /** `s.match(datePattern)`: the start and end of the first match. */
  function DateSearch(s: string): Option<(nat, nat)>
  {
    Leftmost(s, 0, DateAt)
  }

  /** `s.match(datePattern)?.[0]`: the first date/time stamp in `s`. */
  function FirstDate(s: string): (r: Option<string>)
    ensures r.Some? ==> |r.value| > 0
  {
    match DateSearch(s)
    case Some((i, f)) => Some(s[i..f])
    case None => None
  }

  /** The search finds the leftmost match, and finds none only when there is none. */
  lemma DateSearchSpec(s: string)
    ensures DateSearch(s).Some? ==>
      var (i, f) := DateSearch(s).value;
      && DateMatch(s, i, f)
      && FirstDate(s) == Some(s[i..f])
      && forall k, g :: 0 <= k < i ==> !DateMatch(s, k, g)
    ensures DateSearch(s).None? <==> forall k, g :: !DateMatch(s, k, g)
  {
    if DateSearch(s).Some? {
      var (i, f) := DateSearch(s).value;
      DateSearchFound(s, i, f);
    } else {
      DateSearchNone(s);
    }
  }

  lemma DateSearchFound(s: string, i: nat, f: nat)
    requires DateSearch(s) == Some((i, f))
    ensures DateMatch(s, i, f) && forall k, g :: 0 <= k < i ==> !DateMatch(s, k, g)
  {
    LeftmostSpec(s, 0, DateAt);
    DateAtSpec(s, i, f);
    forall k, g | 0 <= k < i ensures !DateMatch(s, k, g) {
      NoDateMatch(s, k, g);
    }
  }

  lemma DateSearchNone(s: string)
    requires DateSearch(s).None?
    ensures forall k, g :: !DateMatch(s, k, g)
  {
    LeftmostSpec(s, 0, DateAt);
    forall k, g ensures !DateMatch(s, k, g) {
      NoDateMatch(s, k, g);
    }
  }

  /** Where the date matcher fails, the pattern has no match. */
  lemma NoDateMatch(s: string, k: nat, g: nat)
    requires DateAt(s, k).None?
    ensures !DateMatch(s, k, g)
  {
    DateAtSpec(s, k, g);
  }

  // ---------------------------------------------------------------------------
  // The card number  \(Card:\s*(\d+)\)  with the i flag
  // ---------------------------------------------------------------------------

  /** The card pattern tried at `p`: its captured digits. */
  function CardAt(s: string, p: nat): Option<string>
  {
    if CiAt(s, p, "(card:") then
      var q := p + 6 + SpaceRun(s, p + 6);
      var e := q + DigitRun(s, q);
      if q < e && e < |s| && s[e] == ')' then Some(s[q..e]) else None
    else None
  }

  /** `s[p..e+1]` matches the card pattern and its group is `s[q..e]`. */
  ghost predicate CardMatch(s: string, p: nat, q: nat, e: nat)
  {
    CiAt(s, p, "(card:") && SpacesIn(s, p + 6, q) && q < e && DigitsIn(s, q, e) && e < |s| && s[e] == ')'
  }

  lemma CardAtSpec(s: string, p: nat, x: string)
    ensures CardAt(s, p) == Some(x) <==> exists q: nat, e: nat :: CardMatch(s, p, q, e) && x == s[q..e]
  {
    if CardAt(s, p) == Some(x) {
      var q := p + 6 + SpaceRun(s, p + 6);
      var e := q + DigitRun(s, q);
      SpaceRunSpec(s, p + 6);
      DigitRunSpec(s, q);
      assert CardMatch(s, p, q, e);
    }
    if exists q: nat, e: nat :: CardMatch(s, p, q, e) && x == s[q..e] {
      var q: nat, e: nat :| CardMatch(s, p, q, e) && x == s[q..e];
      CardAtComplete(s, p, q, e);
    }
  }

  /** The group of a card match holds only digits. */
  lemma CardAtDigits(s: string, p: nat, x: string)
    requires CardAt(s, p) == Some(x)
    ensures forall k :: 0 <= k < |x| ==> IsDigit(x[k])
  {
    var q := p + 6 + SpaceRun(s, p + 6);
    var e := q + DigitRun(s, q);
    DigitRunSpec(s, q);
    assert x == s[q..e];
    forall k | 0 <= k < |x| ensures IsDigit(x[k]) {
      assert x[k] == s[q + k];
    }
  }

  lemma CardAtComplete(s: string, p: nat, q: nat, e: nat)
    requires CardMatch(s, p, q, e)
    ensures CardAt(s, p) == Some(s[q..e])
  {
    assert IsDigit(s[q]) && !IsSpace(s[q]);
    SpaceRunMaximal(s, p + 6, q);
    assert s[e] == ')' && !IsDigit(s[e]);
    DigitRunMaximal(s, q, e);
  }

  // ---------------------------------------------------------------------------
  // A quoted span  '(.*?)'  (`.` does not match a line terminator)
  // ---------------------------------------------------------------------------

  /** The first index from `i` on that holds a quote or a line terminator, or `|s|`. */
  function StopAt(s: string, i: nat): (q: nat)
    requires i <= |s|
    ensures i <= q <= |s|
    ensures forall k :: i <= k < q ==> s[k] != '\'' && !IsLineTerminator(s[k])
    ensures q < |s| ==> s[q] == '\'' || IsLineTerminator(s[q])
    decreases |s| - i
  {
    if i < |s| && s[i] != '\'' && !IsLineTerminator(s[i]) then StopAt(s, i + 1) else i
  }

  /** The quote pattern tried at `p`: the text between the quotes. */
  function QuotedAt(s: string, p: nat): (r: Option<string>)
    ensures r.Some? ==> '\'' !in r.value
  {
    if p < |s| && s[p] == '\'' then
      var q := StopAt(s, p + 1);
      if q < |s| && s[q] == '\'' then Some(s[p + 1..q]) else None
    else None
  }

  /** A quote at `p`, a quote at `q`, and only characters `.` accepts between them. */
  ghost predicate QuoteCandidate(s: string, p: nat, q: nat)
  {
    p < q < |s| && s[p] == '\'' && s[q] == '\'' && forall k :: p < k < q ==> !IsLineTerminator(s[k])
  }

  /** The lazy `.*?` stops at the first candidate closing quote. */
  ghost predicate LazyQuote(s: string, p: nat, q: nat)
  {
    QuoteCandidate(s, p, q) && forall q' :: p < q' < q ==> !QuoteCandidate(s, p, q')
  }

  lemma QuotedAtSpec(s: string, p: nat, x: string)
    ensures QuotedAt(s, p) == Some(x) <==> exists q: nat :: LazyQuote(s, p, q) && x == s[p + 1..q]
  {
    if QuotedAt(s, p) == Some(x) {
      QuotedAtSound(s, p);
    }
    if exists q: nat :: LazyQuote(s, p, q) && x == s[p + 1..q] {
      var q: nat :| LazyQuote(s, p, q) && x == s[p + 1..q];
      QuotedAtComplete(s, p, q);
    }
  }

  /** What the quote matcher finds is the lazy span up to the next stop. */
  lemma QuotedAtSound(s: string, p: nat)
    requires QuotedAt(s, p).Some?
    ensures p < |s| && LazyQuote(s, p, StopAt(s, p + 1)) && QuotedAt(s, p).value == s[p + 1..StopAt(s, p + 1)]
  {
  }

  /** A lazily quoted span is what the quote matcher finds. */
  lemma QuotedAtComplete(s: string, p: nat, q: nat)
    requires LazyQuote(s, p, q)
    ensures QuotedAt(s, p) == Some(s[p + 1..q])
  {
    var stop := StopAt(s, p + 1);
    if stop < q {
      assert s[stop] == '\'' by {
        assert !IsLineTerminator(s[stop]);
      }
      assert QuoteCandidate(s, p, stop);
    }
    assert stop >= q;
  }

  // ---------------------------------------------------------------------------
  // The door  en\s+'(.*?)'  with the i flag
  // ---------------------------------------------------------------------------

  /** The door pattern tried at `p`: the quoted door name. */
  function DoorAt(s: string, p: nat): (r: Option<string>)
    ensures r.Some? ==> '\'' !in r.value
  {
    if CiAt(s, p, "en") then
      var q := p + 2 + SpaceRun(s, p + 2);
      if q > p + 2 then QuotedAt(s, q) else None
    else None
  }

  /** `en`, whitespace up to `q`, and a lazily quoted span from `q` to `e`. */
  ghost predicate DoorMatch(s: string, p: nat, q: nat, e: nat)
  {
    CiAt(s, p, "en") && p + 2 < q && SpacesIn(s, p + 2, q) && LazyQuote(s, q, e)
  }

  lemma DoorAtSpec(s: string, p: nat, x: string)
    ensures DoorAt(s, p) == Some(x) <==> exists q: nat, e: nat :: DoorMatch(s, p, q, e) && x == s[q + 1..e]
  {
    if DoorAt(s, p) == Some(x) {
      DoorAtSound(s, p);
    }
    if exists q: nat, e: nat :: DoorMatch(s, p, q, e) && x == s[q + 1..e] {
      var q: nat, e: nat :| DoorMatch(s, p, q, e) && x == s[q + 1..e];
      DoorAtComplete(s, p, q, e);
    }
  }

  /** What the door matcher finds is a door match. */
  lemma DoorAtSound(s: string, p: nat)
    requires DoorAt(s, p).Some?
    ensures var q := p + 2 + SpaceRun(s, p + 2); var e := StopAt(s, q + 1);
      q < |s| && DoorMatch(s, p, q, e) && DoorAt(s, p).value == s[q + 1..e]
  {
    var q := p + 2 + SpaceRun(s, p + 2);
    SpaceRunSpec(s, p + 2);
    QuotedAtSound(s, q);
  }

  /** A door match is what the door matcher finds. */
  lemma DoorAtComplete(s: string, p: nat, q: nat, e: nat)
    requires DoorMatch(s, p, q, e)
    ensures DoorAt(s, p) == Some(s[q + 1..e])
  {
    assert !IsSpace(s[q]);
    SpaceRunMaximal(s, p + 2, q);
    QuotedAtComplete(s, q, e);
  }

  // ---------------------------------------------------------------------------
  // Header tests  /message\s*text/i  and  /text/i
  // ---------------------------------------------------------------------------

  /** `message\s*text` tried at `p`. */
  predicate MessageTextAt(h: string, p: nat)
  {
    CiAt(h, p, "message") && CiAt(h, p + 7 + SpaceRun(h, p + 7), "text")
  }

  /** `/message\s*text/i.test(h)` */
  predicate HasMessageText(h: string)
  {
    exists p | 0 <= p <= |h| :: MessageTextAt(h, p)
  }

  /** `/text/i.test(h)` */
  predicate HasText(h: string)
  {
    exists p | 0 <= p <= |h| :: CiAt(h, p, "text")
  }

  lemma MessageTextAtSpec(h: string, p: nat)
    ensures MessageTextAt(h, p) <==>
      exists q :: CiAt(h, p, "message") && SpacesIn(h, p + 7, q) && CiAt(h, q, "text")
  {
    if MessageTextAt(h, p) {
      var q := p + 7 + SpaceRun(h, p + 7);
      SpaceRunSpec(h, p + 7);
    }
    if exists q :: CiAt(h, p, "message") && SpacesIn(h, p + 7, q) && CiAt(h, q, "text") {
      var q :| CiAt(h, p, "message") && SpacesIn(h, p + 7, q) && CiAt(h, q, "text");
      MessageTextAtComplete(h, p, q);
    }
  }

  /** `message`, whitespace up to `q` and `text` is what the header test finds. */
  lemma MessageTextAtComplete(h: string, p: nat, q: nat)
    requires CiAt(h, p, "message") && SpacesIn(h, p + 7, q) && CiAt(h, q, "text")
    ensures MessageTextAt(h, p)
  {
    assert Lower(h[q + 0]) == "text"[0];
    LetterIsNotSpace(h[q]);
    SpaceRunMaximal(h, p + 7, q);
  }

  /** A header that passes the first test passes the second. */
  lemma MessageTextHasText(h: string)
    requires HasMessageText(h)
    ensures HasText(h)
  {
    var p :| 0 <= p <= |h| && MessageTextAt(h, p);
    var q := p + 7 + SpaceRun(h, p + 7);
    assert CiAt(h, q, "text");
  }

  // ---------------------------------------------------------------------------
  // The spreadsheet extension  \.xls[x]?$  with the i flag
  // ---------------------------------------------------------------------------

  /** The extension pattern tried at `p`: where the match ends (always at the end of `s`). */
  function XlsAt(s: string, p: nat): (r: Option<nat>)
    ensures r.Some? ==> r.value == |s| && p < r.value
  {
    if p < |s| && s[p] == '.' && CiAt(s, p + 1, "xls") then
      if p + 5 == |s| && Lower(s[p + 4]) == 'x' then Some(p + 5)
      else if p + 4 == |s| then Some(p + 4)
      else None
    else None
  }

  // ---------------------------------------------------------------------------
  // The short date test  \d{1,2}[\/\-]\d{1,2}[\/\-]\d{2,4}  (no anchors, no boundaries)
  // ---------------------------------------------------------------------------

  /** Some match starts at `p`; the year needs only its two mandatory digits. */
  predicate ShortDateAt(s: string, p: nat)
  {
    exists a | p + 1 <= a <= p + 2 ::
      && DigitsIn(s, p, a) && a < |s| && IsDateSep(s[a])
      && exists b | a + 2 <= b <= a + 3 ::
        && DigitsIn(s, a + 1, b) && b < |s| && IsDateSep(s[b])
        && DigitsIn(s, b + 1, b + 3)
  }

  /** `/\d{1,2}[\/\-]\d{1,2}[\/\-]\d{2,4}/.test(s)` */
  predicate HasShortDate(s: string)
  {
    exists p | 0 <= p <= |s| :: ShortDateAt(s, p)
  }

  /** `\d{1,2}[\/\-]\d{1,2}[\/\-]\d{2,4}` as tokens: the date part of the stamp pattern. */
  function ShortTokens(): seq<Token>
  {
    [Digits(1, 2), DateSep, Digits(1, 2), DateSep, Digits(2, 4)]
  }

  /** A stretch spanned by two token lists one after the other splits where the first ends. */
  lemma {:induction false} TokensSpanSplit(s: string, a: seq<Token>, b: seq<Token>, i: nat, f: nat)
    requires TokensSpan(s, a + b, i, f)
    ensures exists m :: TokensSpan(s, a, i, m) && TokensSpan(s, b, m, f)
    decreases |a|
  {
    if a == [] {
      assert a + b == b;
      TokensSpanBounds(s, b, i, f);
      assert TokensSpan(s, a, i, i);
    } else {
      var t := a + b;
      assert t[0] == a[0] && t[1..] == a[1..] + b;
      match a[0]
      case Digits(lo, hi) =>
        var e :| i + lo <= e <= i + hi && DigitsIn(s, i, e) && TokensSpan(s, t[1..], e, f);
        TokensSpanSplit(s, a[1..], b, e, f);
        var m :| TokensSpan(s, a[1..], e, m) && TokensSpan(s, b, m, f);
        assert TokensSpan(s, a, i, m);
      case DateSep =>
        TokensSpanSplit(s, a[1..], b, i + 1, f);
        var m :| TokensSpan(s, a[1..], i + 1, m) && TokensSpan(s, b, m, f);
        assert TokensSpan(s, a, i, m);
      case Colon =>
        TokensSpanSplit(s, a[1..], b, i + 1, f);
        var m :| TokensSpan(s, a[1..], i + 1, m) && TokensSpan(s, b, m, f);
        assert TokensSpan(s, a, i, m);
      case Gap =>
        var e :| i < e && SpacesIn(s, i, e) && TokensSpan(s, t[1..], e, f);
        TokensSpanSplit(s, a[1..], b, e, f);
        var m :| TokensSpan(s, a[1..], e, m) && TokensSpan(s, b, m, f);
        assert TokensSpan(s, a, i, m);
    }
  }

  /** The short date test holds at `p` exactly when some stretch from `p` is in the
      language of the short date pattern: `.test` needs only the year's first two digits. */
  lemma ShortDateAtSpec(s: string, p: nat)
    ensures ShortDateAt(s, p) <==> exists f :: TokensSpan(s, ShortTokens(), p, f)
  {
    if ShortDateAt(s, p) {
      ShortDateAtSound(s, p);
    }
    if exists f :: TokensSpan(s, ShortTokens(), p, f) {
      var f :| TokensSpan(s, ShortTokens(), p, f);
      ShortDateAtComplete(s, p, f);
    }
  }

  lemma ShortDateAtSound(s: string, p: nat)
    requires ShortDateAt(s, p)
    ensures exists f :: TokensSpan(s, ShortTokens(), p, f)
  {
    var a :| p + 1 <= a <= p + 2 && DigitsIn(s, p, a) && a < |s| && IsDateSep(s[a])
      && exists b | a + 2 <= b <= a + 3 :: DigitsIn(s, a + 1, b) && b < |s| && IsDateSep(s[b]) && DigitsIn(s, b + 1, b + 3);
    var b :| a + 2 <= b <= a + 3 && DigitsIn(s, a + 1, b) && b < |s| && IsDateSep(s[b]) && DigitsIn(s, b + 1, b + 3);
    var f := b + 3;
    var t4: seq<Token> := [Digits(2, 4)] + [];
    var t3 := [DateSep] + t4;
    var t2 := [Digits(1, 2)] + t3;
    var t1 := [DateSep] + t2;
    assert TokensSpan(s, [], f, f);
    DigitsSpanIntro(s, 2, 4, [], b + 1, f, f);
    SepSpanIntro(s, t4, b, f);
    DigitsSpanIntro(s, 1, 2, t3, a + 1, b, f);
    SepSpanIntro(s, t2, a, f);
    DigitsSpanIntro(s, 1, 2, t1, p, a, f);
    assert ShortTokens() == [Digits(1, 2)] + t1;
  }

  lemma ShortDateAtComplete(s: string, p: nat, f: nat)
    requires TokensSpan(s, ShortTokens(), p, f)
    ensures ShortDateAt(s, p)
  {
    var t4: seq<Token> := [Digits(2, 4)] + [];
    var t3 := [DateSep] + t4;
    var t2 := [Digits(1, 2)] + t3;
    var t1 := [DateSep] + t2;
    assert ShortTokens() == [Digits(1, 2)] + t1;
    DigitsSpanElim(s, 1, 2, t1, p, f);
    var a :| p + 1 <= a <= p + 2 && DigitsIn(s, p, a) && TokensSpan(s, t1, a, f);
    SepSpanElim(s, t2, a, f);
    DigitsSpanElim(s, 1, 2, t3, a + 1, f);
    var b :| a + 2 <= b <= a + 3 && DigitsIn(s, a + 1, b) && TokensSpan(s, t3, b, f);
    SepSpanElim(s, t4, b, f);
    DigitsSpanElim(s, 2, 4, [], b + 1, f);
    var c :| b + 3 <= c <= b + 5 && DigitsIn(s, b + 1, c) && TokensSpan(s, [], c, f);
    assert DigitsIn(s, b + 1, b + 3);
  }

  /** A digit run of `lo` to `hi` digits in front of a spanned stretch. */
  lemma DigitsSpanIntro(s: string, lo: nat, hi: nat, rest: seq<Token>, i: nat, e: nat, f: nat)
    requires i + lo <= e <= i + hi && DigitsIn(s, i, e) && TokensSpan(s, rest, e, f)
    ensures TokensSpan(s, [Digits(lo, hi)] + rest, i, f)
  {
    var t := [Digits(lo, hi)] + rest;
    assert t[0] == Digits(lo, hi) && t[1..] == rest;
  }

  lemma DigitsSpanElim(s: string, lo: nat, hi: nat, rest: seq<Token>, i: nat, f: nat)
    requires TokensSpan(s, [Digits(lo, hi)] + rest, i, f)
    ensures exists e :: i + lo <= e <= i + hi && DigitsIn(s, i, e) && TokensSpan(s, rest, e, f)
  {
    var t := [Digits(lo, hi)] + rest;
    assert t[0] == Digits(lo, hi) && t[1..] == rest;
  }

  /** A date separator in front of a spanned stretch. */
  lemma SepSpanIntro(s: string, rest: seq<Token>, i: nat, f: nat)
    requires i < |s| && IsDateSep(s[i]) && TokensSpan(s, rest, i + 1, f)
    ensures TokensSpan(s, [DateSep] + rest, i, f)
  {
    var t := [DateSep] + rest;
    assert t[0] == DateSep && t[1..] == rest;
  }

  lemma SepSpanElim(s: string, rest: seq<Token>, i: nat, f: nat)
    requires TokensSpan(s, [DateSep] + rest, i, f)
    ensures i < |s| && IsDateSep(s[i]) && TokensSpan(s, rest, i + 1, f)
  {
    var t := [DateSep] + rest;
    assert t[0] == DateSep && t[1..] == rest;
  }

  /** Every full date/time stamp passes the short date test at its start. */
  lemma StampHasShortDate(s: string, i: nat, f: nat)
    requires DateMatch(s, i, f)
    ensures ShortDateAt(s, i) && HasShortDate(s)
  {
    var rest := [Gap, Digits(1, 2), Colon, Digits(2, 2), Colon, Digits(2, 2)];
    assert StampTokens() == ShortTokens() + rest;
    TokensSpanSplit(s, ShortTokens(), rest, i, f);
    var m :| TokensSpan(s, ShortTokens(), i, m) && TokensSpan(s, rest, m, f);
    ShortDateAtComplete(s, i, m);
  }
}
