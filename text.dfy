/** String operations the reconstruction engine relies on: `trim()`, `join(" ")`,
    `endsWith(".")` and the whitespace normalisation `replace(/\s+/g, " ").trim()`. */
module Text {
  import opened Chars

  /** Leading whitespace removed. */
  function TrimStart(s: string): (r: string)
    ensures |r| <= |s|
  {
    if s != [] && IsSpace(s[0]) then TrimStart(s[1..]) else s
  }

  /** Trailing whitespace removed. */
  function TrimEnd(s: string): (r: string)
    ensures |r| <= |s|
  {
    if s != [] && IsSpace(s[|s| - 1]) then TrimEnd(s[..|s| - 1]) else s
  }

  /** `TrimStart(s)` is the suffix of `s` after its leading whitespace. */
  lemma {:induction false} TrimStartSpec(s: string)
    ensures var r := TrimStart(s);
      && (forall k :: 0 <= k < |r| ==> r[k] == s[|s| - |r| + k])
      && (r == [] || !IsSpace(r[0]))
      && (forall k :: 0 <= k < |s| - |r| ==> IsSpace(s[k]))
    decreases |s|
  {
    if s != [] && IsSpace(s[0]) {
      TrimStartSpec(s[1..]);
    }
  }

  /** `TrimEnd(s)` is the prefix of `s` before its trailing whitespace. */
  lemma {:induction false} TrimEndSpec(s: string)
    ensures var r := TrimEnd(s);
      && (forall k :: 0 <= k < |r| ==> r[k] == s[k])
      && (r == [] || !IsSpace(r[|r| - 1]))
      && (forall k :: |r| <= k < |s| ==> IsSpace(s[k]))
    decreases |s|
  {
    if s != [] && IsSpace(s[|s| - 1]) {
      TrimEndSpec(s[..|s| - 1]);
    }
  }

  /** `String.prototype.trim`. */
  function Trim(s: string): string
  {
    TrimEnd(TrimStart(s))
  }

  /** How many leading characters `trim()` drops. */
  function TrimOffset(s: string): (a: nat)
    ensures a <= |s|
  {
    |s| - |TrimStart(s)|
  }

  /** What `trim()` returns is `s` without a whitespace-only margin on either side. */
  lemma TrimSpec(s: string)
    ensures var r, a := Trim(s), TrimOffset(s);
      && (r == [] || (!IsSpace(r[0]) && !IsSpace(r[|r| - 1])))
      && a + |r| <= |s| && r == s[a..a + |r|]
      && (forall k :: 0 <= k < a ==> IsSpace(s[k]))
      && (forall k :: a + |r| <= k < |s| ==> IsSpace(s[k]))
  {
    var t := TrimStart(s);
    var r := TrimEnd(t);
    var a := |s| - |t|;
    assert forall k :: 0 <= k < a ==> IsSpace(s[k]) by {
      TrimStartSpec(s);
    }
    assert r == s[a..a + |r|] by {
      TrimStartSpec(s);
      TrimEndSpec(t);
      forall k | 0 <= k < |r| ensures r[k] == s[a + k] {
        assert r[k] == t[k];
      }
    }
    assert forall k :: a + |r| <= k < |s| ==> IsSpace(s[k]) by {
      TrimStartSpec(s);
      TrimEndSpec(t);
      forall k | a + |r| <= k < |s| ensures IsSpace(s[k]) {
        var j := k - a;
        assert |r| <= j < |t|;
        assert IsSpace(t[j]);
        assert t[j] == s[|s| - |t| + j];
      }
    }
    assert r == [] || (!IsSpace(r[0]) && !IsSpace(r[|r| - 1])) by {
      TrimStartSpec(s);
      TrimEndSpec(t);
      if r != [] {
        assert r[0] == t[0];
      }
    }
  }

  lemma AllSpacesTrimStart(s: string)
    requires forall k :: 0 <= k < |s| ==> IsSpace(s[k])
    ensures TrimStart(s) == []
  {
  }

  /** `Trim(s)` is empty exactly when every character of `s` is whitespace. */
  lemma TrimEmpty(s: string)
    ensures Trim(s) == [] <==> forall k :: 0 <= k < |s| ==> IsSpace(s[k])
  {
    if forall k :: 0 <= k < |s| ==> IsSpace(s[k]) {
      AllSpacesTrimStart(s);
    }
    if Trim(s) == [] {
      TrimSpec(s);
    }
  }

  /** `s.endsWith(".")` */
  predicate EndsWithPeriod(s: string)
  {
    |s| > 0 && s[|s| - 1] == '.'
  }

  /** `parts.join(sep)` */
  function Join(parts: seq<string>, sep: string): string
  {
    if parts == [] then []
    else if |parts| == 1 then parts[0]
    else parts[0] + sep + Join(parts[1..], sep)
  }

  /** The rest of `s` after a run of whitespace that starts at its first character. */
  function DropSpaces(s: string): (r: string)
    requires s != [] && IsSpace(s[0])
    ensures |r| < |s|
  {
    TrimStart(s[1..])
  }

  /** `DropSpaces(s)` is the suffix of `s` after its leading whitespace. */
  lemma DropSpacesSpec(s: string)
    requires s != [] && IsSpace(s[0])
    ensures var r := DropSpaces(s);
      && (forall k :: 0 <= k < |r| ==> r[k] == s[|s| - |r| + k])
      && (r == [] || !IsSpace(r[0]))
      && (forall k :: 0 <= k < |s| - |r| ==> IsSpace(s[k]))
  {
    var t, r := s[1..], DropSpaces(s);
    TrimStartSpec(t);
    forall k | 0 <= k < |r| ensures r[k] == s[|s| - |r| + k] {
      assert r[k] == t[|t| - |r| + k];
    }
    forall k | 0 <= k < |s| - |r| ensures IsSpace(s[k]) {
      if k > 0 {
        assert s[k] == t[k - 1];
      }
    }
  }

  /** `s.replace(/\s+/g, " ")`: every maximal run of whitespace becomes one space. */
  function Collapse(s: string): string
    decreases |s|
  {
    if s == [] then []
    else if IsSpace(s[0]) then [' '] + Collapse(DropSpaces(s))
    else [s[0]] + Collapse(s[1..])
  }

  /** The whitespace normalisation applied to every reconstructed message text. */
  function Normalize(s: string): string
  {
    Trim(Collapse(s))
  }

  /** Every whitespace character is a plain space. */
  ghost predicate PlainSpaces(s: string)
  {
    forall k :: 0 <= k < |s| && IsSpace(s[k]) ==> s[k] == ' '
  }

  /** No two adjacent whitespace characters. */
  ghost predicate NoDoubleSpace(s: string)
  {
    forall k :: 0 <= k < |s| - 1 && IsSpace(s[k]) ==> !IsSpace(s[k + 1])
  }

  /** A normalised text: plain single spaces between words and none at either end. */
  ghost predicate IsNormal(s: string)
  {
    && PlainSpaces(s)
    && NoDoubleSpace(s)
    && (s == [] || (!IsSpace(s[0]) && !IsSpace(s[|s| - 1])))
  }

  /** The non-whitespace characters of `s`, in order. */
  function Visible(s: string): string
  {
    if s == [] then []
    else (if IsSpace(s[0]) then [] else [s[0]]) + Visible(s[1..])
  }

  lemma {:induction false} CollapseShape(s: string)
    ensures PlainSpaces(Collapse(s)) && NoDoubleSpace(Collapse(s))
    ensures Collapse(s) != [] ==> (IsSpace(Collapse(s)[0]) <==> IsSpace(s[0]))
    decreases |s|
  {
    if s == [] {
    } else if IsSpace(s[0]) {
      var d := DropSpaces(s);
      DropSpacesSpec(s);
      CollapseShape(d);
      var c := Collapse(d);
      assert c != [] ==> !IsSpace(c[0]);
      assert Collapse(s) == [' '] + c;
    } else {
      CollapseShape(s[1..]);
      assert Collapse(s) == [s[0]] + Collapse(s[1..]);
    }
  }

  lemma SliceKeepsShape(s: string, a: nat, b: nat)
    requires a <= b <= |s|
    requires PlainSpaces(s) && NoDoubleSpace(s)
    ensures PlainSpaces(s[a..b]) && NoDoubleSpace(s[a..b])
  {
    var t := s[a..b];
    forall k | 0 <= k < |t| - 1 && IsSpace(t[k]) ensures !IsSpace(t[k + 1]) {
      assert t[k] == s[a + k] && t[k + 1] == s[a + k + 1];
    }
    forall k | 0 <= k < |t| && IsSpace(t[k]) ensures t[k] == ' ' {
      assert t[k] == s[a + k];
    }
  }

  /** Normalising yields a normal text. */
  lemma NormalizeIsNormal(s: string)
    ensures IsNormal(Normalize(s))
  {
    var c := Collapse(s);
    CollapseShape(s);
    TrimSpec(c);
    var r, a := Trim(c), TrimOffset(c);
    SliceKeepsShape(c, a, a + |r|);
  }

  lemma DropOneSpace(s: string)
    requires s != [] && IsSpace(s[0])
    requires s[1..] == [] || !IsSpace(s[1])
    ensures DropSpaces(s) == s[1..]
  {
    assert TrimStart(s[1..]) == s[1..];
  }

  lemma {:induction false} CollapseNormal(s: string)
    requires PlainSpaces(s) && NoDoubleSpace(s)
    ensures Collapse(s) == s
    decreases |s|
  {
    if s != [] {
      SliceKeepsShape(s, 1, |s|);
      if IsSpace(s[0]) {
        assert s[1..] == [] || !IsSpace(s[1]);
        DropOneSpace(s);
        CollapseNormal(s[1..]);
      } else {
        CollapseNormal(s[1..]);
      }
    }
  }

  /** A text that is already normal is left unchanged. */
  lemma NormalizeFixesNormal(s: string)
    requires IsNormal(s)
    ensures Normalize(s) == s
  {
    CollapseNormal(s);
    assert TrimStart(s) == s;
    assert TrimEnd(s) == s;
  }

  /** Normalisation is idempotent. */
  lemma NormalizeIdempotent(s: string)
    ensures Normalize(Normalize(s)) == Normalize(s)
  {
    NormalizeIsNormal(s);
    NormalizeFixesNormal(Normalize(s));
  }

  /** Leading whitespace followed by a text that does not start with whitespace is all `TrimStart` removes. */
  lemma {:induction false} TrimStartRun(w: string, b: string)
    requires forall k :: 0 <= k < |w| ==> IsSpace(w[k])
    requires b == [] || !IsSpace(b[0])
    ensures TrimStart(w + b) == b
    decreases |w|
  {
    if w == [] {
      assert w + b == b;
    } else {
      var x := w + b;
      assert x[0] == w[0] && x[1..] == w[1..] + b;
      TrimStartRun(w[1..], b);
    }
  }

  /** Once `TrimStart` reaches a visible character, what follows is kept as it is. */
  lemma {:induction false} TrimStartAppend(x: string, y: string)
    requires TrimStart(x) != []
    ensures TrimStart(x + y) == TrimStart(x) + y
    decreases |x|
  {
    var z := x + y;
    assert z[0] == x[0] && z[1..] == x[1..] + y;
    if IsSpace(x[0]) {
      TrimStartAppend(x[1..], y);
    }
  }

  /** A whitespace run between two visible characters becomes exactly one space:
      word separation survives the collapse. */
  lemma {:induction false} CollapseRun(a: string, w: string, b: string)
    requires a == [] || !IsSpace(a[|a| - 1])
    requires w != [] && forall k :: 0 <= k < |w| ==> IsSpace(w[k])
    requires b == [] || !IsSpace(b[0])
    ensures Collapse(a + w + b) == Collapse(a) + [' '] + Collapse(b)
  {
    var x := w + b;
    calc {
      Collapse(a + w + b);
      { assert a + w + b == a + x; }
      Collapse(a + x);
      { CollapseAppend(a, x); }
      Collapse(a) + Collapse(x);
      { CollapseLeadingRun(w, b); }
      Collapse(a) + ([' '] + Collapse(b));
      Collapse(a) + [' '] + Collapse(b);
    }
  }

  /** A text that starts with a whitespace run collapses it to one space. */
  lemma CollapseLeadingRun(w: string, b: string)
    requires w != [] && forall k :: 0 <= k < |w| ==> IsSpace(w[k])
    requires b == [] || !IsSpace(b[0])
    ensures Collapse(w + b) == [' '] + Collapse(b)
  {
    var x := w + b;
    assert x[0] == w[0] && x[1..] == w[1..] + b;
    TrimStartRun(w[1..], b);
    assert DropSpaces(x) == b;
  }

  /** Collapsing splits after a visible character: no whitespace run straddles the cut. */
  lemma {:induction false} CollapseAppend(a: string, r: string)
    requires a == [] || !IsSpace(a[|a| - 1])
    ensures Collapse(a + r) == Collapse(a) + Collapse(r)
    decreases |a|, 1
  {
    if a == [] {
      assert a + r == r;
    } else if IsSpace(a[0]) {
      CollapseAppendSpace(a, r);
    } else {
      CollapseAppendVisible(a, r);
    }
  }

  lemma {:induction false} CollapseAppendSpace(a: string, r: string)
    requires a != [] && IsSpace(a[0]) && !IsSpace(a[|a| - 1])
    ensures Collapse(a + r) == Collapse(a) + Collapse(r)
    decreases |a|, 0
  {
    DropSpacesThrough(a, r);
    CollapseAppend(DropSpaces(a), r);
  }

  /** Leading whitespace that ends inside `a` is dropped the same way whatever follows `a`. */
  lemma DropSpacesThrough(a: string, rest: string)
    requires a != [] && IsSpace(a[0]) && !IsSpace(a[|a| - 1])
    ensures var a' := DropSpaces(a);
      && a' != [] && !IsSpace(a'[|a'| - 1]) && |a'| < |a|
      && DropSpaces(a + rest) == a' + rest
      && Collapse(a + rest) == [' '] + Collapse(a' + rest)
      && Collapse(a) == [' '] + Collapse(a')
  {
    var x := a + rest;
    var t := a[1..];
    assert x[0] == a[0] && x[1..] == t + rest;
    assert t != [] && t[|t| - 1] == a[|a| - 1];
    TrimStartSpec(t);
    var a' := TrimStart(t);
    assert a' != [] && a'[|a'| - 1] == t[|t| - 1];
    TrimStartAppend(t, rest);
  }

  lemma {:induction false} CollapseAppendVisible(a: string, r: string)
    requires a != [] && !IsSpace(a[0]) && !IsSpace(a[|a| - 1])
    ensures Collapse(a + r) == Collapse(a) + Collapse(r)
    decreases |a|, 0
  {
    var t := a[1..];
    CollapseVisibleHead(a, r);
    assert t == [] || t[|t| - 1] == a[|a| - 1];
    CollapseAppend(t, r);
  }

  /** A visible first character is copied whatever follows `a`. */
  lemma CollapseVisibleHead(a: string, rest: string)
    requires a != [] && !IsSpace(a[0])
    ensures Collapse(a + rest) == [a[0]] + Collapse(a[1..] + rest)
    ensures Collapse(a) == [a[0]] + Collapse(a[1..])
  {
    var x := a + rest;
    assert x[0] == a[0] && x[1..] == a[1..] + rest;
  }

  /** Two normal texts with any whitespace run between them normalise to the two
      joined by exactly one space. */
  lemma NormalizeWords(a: string, w: string, b: string)
    requires IsNormal(a) && a != [] && IsNormal(b) && b != []
    requires w != [] && forall k :: 0 <= k < |w| ==> IsSpace(w[k])
    ensures Normalize(a + w + b) == a + " " + b
  {
    CollapseRun(a, w, b);
    CollapseNormal(a);
    CollapseNormal(b);
    var c := a + " " + b;
    assert c[0] == a[0] && c[|c| - 1] == b[|b| - 1];
    assert TrimStart(c) == c;
    assert TrimEnd(c) == c;
  }

  lemma {:induction false} VisibleAppend(s: string, t: string)
    ensures Visible(s + t) == Visible(s) + Visible(t)
    decreases |s|
  {
    if s != [] {
      assert (s + t)[1..] == s[1..] + t;
      VisibleAppend(s[1..], t);
    } else {
      assert s + t == t;
    }
  }

  lemma VisibleOfSpaces(s: string)
    requires forall k :: 0 <= k < |s| ==> IsSpace(s[k])
    ensures Visible(s) == []
  {
  }

  lemma {:induction false} VisibleCollapse(s: string)
    ensures Visible(Collapse(s)) == Visible(s)
    decreases |s|
  {
    if s != [] {
      if IsSpace(s[0]) {
        var d := DropSpaces(s);
        DropSpacesSpec(s);
        VisibleCollapse(d);
        assert s == s[..|s| - |d|] + d by {
          forall k | |s| - |d| <= k < |s| ensures s[k] == d[k - (|s| - |d|)] {
          }
        }
        VisibleAppend(s[..|s| - |d|], d);
        VisibleOfSpaces(s[..|s| - |d|]);
        VisibleAppend([' '], Collapse(d));
      } else {
        VisibleCollapse(s[1..]);
        VisibleAppend([s[0]], Collapse(s[1..]));
      }
    }
  }

  lemma VisibleMargins(head: string, r: string, tail: string)
    requires forall k :: 0 <= k < |head| ==> IsSpace(head[k])
    requires forall k :: 0 <= k < |tail| ==> IsSpace(tail[k])
    ensures Visible(head + r + tail) == Visible(r)
  {
    VisibleAppend(head + r, tail);
    VisibleAppend(head, r);
    VisibleOfSpaces(head);
    VisibleOfSpaces(tail);
  }

  lemma VisibleTrim(s: string)
    ensures Visible(Trim(s)) == Visible(s)
  {
    TrimSpec(s);
    var r, a := Trim(s), TrimOffset(s);
    assert s == s[..a] + s[a..a + |r|] + s[a + |r|..];
    VisibleMargins(s[..a], r, s[a + |r|..]);
  }

  /** Normalisation changes whitespace only: the visible characters survive, in order. */
  lemma NormalizeKeepsVisible(s: string)
    ensures Visible(Normalize(s)) == Visible(s)
  {
    VisibleCollapse(s);
    VisibleTrim(Collapse(s));
  }
}
