/** `splitSentences` of scripts/embed.ts: whitespace runs collapse to one space,
    the text is cut at every space that follows a sentence terminator (optionally
    followed by one closing quote or bracket) and precedes a sentence opener, and
    the parts are trimmed with the empty ones dropped. */
module Sentences {
  import opened Js

  /** `.`, `!`, `?` and the full-width `。`, `！`, `？`. */
  predicate IsTerminator(c: char)
  {
    c == '.' || c == '!' || c == '?' || c == '\U{3002}' || c == '\U{FF01}' || c == '\U{FF1F}'
  }

  /** The optional closing quote or bracket after a terminator: `'`, `"`, `)`, `]`. */
  predicate IsCloser(c: char)
  {
    c == '\'' || c == '"' || c == ')' || c == ']'
  }

  /** What may start the next sentence: an upper-case ASCII letter, a digit, an opening
      quote or bracket, or a CJK ideograph, hiragana or katakana. */
  predicate IsOpener(c: char)
  {
    ('A' <= c <= 'Z') || ('0' <= c <= '9')
    || c == '\U{201C}' || c == '"' || c == '(' || c == '[' || c == '\'' || c == '\U{AB}'
    || c == '\U{300C}' || c == '\U{300E}'
    || ('\U{4E00}' <= c <= '\U{9FAF}') || ('\U{3041}' <= c <= '\U{3093}') || ('\U{30A1}' <= c <= '\U{30F6}')
  }

  /** Text in which every whitespace character is a plain space and no two spaces touch. */
  ghost predicate Collapsed(s: string)
  {
    && (forall i :: 0 <= i < |s| && IsSpace(s[i]) ==> s[i] == ' ')
    && (forall i, j :: 0 <= i < j < |s| && j == i + 1 && s[i] == ' ' ==> s[j] != ' ')
  }

  lemma CollapsedSlice(s: string, a: nat, b: nat)
    requires Collapsed(s) && a <= b <= |s|
    ensures Collapsed(s[a..b])
  {
    var u := s[a..b];
    forall i | 0 <= i < |u| && IsSpace(u[i]) ensures u[i] == ' ' {
      assert u[i] == s[a + i];
    }
    forall i, j | 0 <= i < j < |u| && j == i + 1 && u[i] == ' ' ensures u[j] != ' ' {
      assert u[i] == s[a + i] && u[j] == s[a + j];
    }
  }

  /** `text.replace(/\s+/g, " ")`. */
  function Collapse(s: string): (r: string)
    ensures r == [] <==> s == []
    ensures r != [] ==> (r[0] == ' ' <==> IsSpace(s[0]))
    decreases |s|
  {
    if s == [] then []
    else if IsSpace(s[0]) then
      [' '] + Collapse(TrimStart(s))
    else [s[0]] + Collapse(s[1..])
  }

  lemma {:induction false} CollapseCollapsed(s: string)
    ensures Collapsed(Collapse(s))
    decreases |s|
  {
    if s == [] {
    } else {
      var rest := if IsSpace(s[0]) then TrimStart(s) else s[1..];
      CollapseCollapsed(rest);
      var r := Collapse(s);
      var c := Collapse(rest);
      assert r == [r[0]] + c;
      assert IsSpace(s[0]) ==> c == [] || c[0] != ' ';
      forall i | 0 <= i < |r| && IsSpace(r[i]) ensures r[i] == ' ' {
        if i > 0 { assert r[i] == c[i - 1]; }
      }
      forall i, j | 0 <= i < j < |r| && j == i + 1 && r[i] == ' ' ensures r[j] != ' ' {
        assert r[j] == c[j - 1];
        if i > 0 { assert r[i] == c[i - 1]; }
      }
    }
  }

  /** The regular expression cuts the collapsed text `t` at position `p`: a space,
      a terminator (possibly followed by a closer) just before it, an opener after it. */
  predicate IsBoundary(t: string, p: int)
  {
    0 < p < |t| - 1 && t[p] == ' ' && IsOpener(t[p + 1])
    && (IsTerminator(t[p - 1]) || (IsCloser(t[p - 1]) && p >= 2 && IsTerminator(t[p - 2])))
  }

  /** A cut inside a slice is a cut of the whole text: the whole text only adds context. */
  lemma BoundaryOfSlice(t: string, a: nat, b: nat, j: int)
    requires a <= b <= |t| && IsBoundary(t[a..b], j)
    ensures IsBoundary(t, a + j)
  {
    var u := t[a..b];
    assert u[j] == t[a + j] && u[j + 1] == t[a + j + 1] && u[j - 1] == t[a + j - 1];
    if j >= 2 { assert u[j - 2] == t[a + j - 2]; }
  }

  /** Number of cut positions at or after `p`. */
  function CutsFrom(t: string, p: nat): nat
    decreases |t| - p
  {
    if p >= |t| then 0 else (if IsBoundary(t, p) then 1 else 0) + CutsFrom(t, p + 1)
  }

  /** `t.split(regex)` scanning from `p`, the current part having started at `start`. */
  function SplitFrom(t: string, start: nat, p: nat): seq<string>
    requires start <= p <= |t|
    decreases |t| - p
  {
    if p == |t| then [t[start..]]
    else if IsBoundary(t, p) then [t[start..p]] + SplitFrom(t, p + 1, p + 1)
    else SplitFrom(t, start, p + 1)
  }

  function Pieces(t: string): seq<string>
  {
    SplitFrom(t, 0, 0)
  }

  /** `.map(s => s.trim())`. */
  function TrimAll(parts: seq<string>): (r: seq<string>)
    ensures |r| == |parts|
  {
    if parts == [] then [] else [Trim(parts[0])] + TrimAll(parts[1..])
  }

  lemma {:induction false} TrimAllAt(parts: seq<string>, i: nat)
    requires i < |parts|
    ensures TrimAll(parts)[i] == Trim(parts[i])
  {
    if i > 0 {
      TrimAllAt(parts[1..], i - 1);
    }
  }

  /** `.filter(Boolean)` on strings: drops the empty ones, keeps the order. */
  function NonEmpty(parts: seq<string>): seq<string>
  {
    if parts == [] then []
    else if parts[0] == [] then NonEmpty(parts[1..])
    else [parts[0]] + NonEmpty(parts[1..])
  }

  /** The filter keeps exactly the non-empty parts. */
  lemma {:induction false} NonEmptyMembers(parts: seq<string>)
    ensures forall s :: s in NonEmpty(parts) <==> s in parts && s != []
  {
    if parts != [] {
      NonEmptyMembers(parts[1..]);
      assert parts == [parts[0]] + parts[1..];
    }
  }

  function SplitSentences(text: string): seq<string>
  {
    NonEmpty(TrimAll(Pieces(Collapse(text))))
  }

  // ---------------------------------------------------------------- properties

  /** The parts rejoined with the single spaces they were cut at give back the text. */
  lemma {:induction false} SplitFromJoin(t: string, start: nat, p: nat)
    requires start <= p <= |t|
    ensures Join(SplitFrom(t, start, p), " ") == t[start..]
    decreases |t| - p
  {
    if p == |t| {
    } else if IsBoundary(t, p) {
      SplitFromJoin(t, p + 1, p + 1);
      var rest := SplitFrom(t, p + 1, p + 1);
      assert rest != [] by { SplitFromNonEmpty(t, p + 1, p + 1); }
      assert t[start..] == t[start..p] + " " + t[p + 1..];
    } else {
      SplitFromJoin(t, start, p + 1);
    }
  }

  lemma {:induction false} SplitFromNonEmpty(t: string, start: nat, p: nat)
    requires start <= p <= |t|
    ensures |SplitFrom(t, start, p)| == 1 + CutsFrom(t, p)
    decreases |t| - p
  {
    if p < |t| {
      if IsBoundary(t, p) { SplitFromNonEmpty(t, p + 1, p + 1); } else { SplitFromNonEmpty(t, start, p + 1); }
    }
  }

  /** No part contains a cut position of its own. */
  lemma {:induction false} SplitFromNoCut(t: string, start: nat, p: nat)
    requires start <= p <= |t|
    requires forall q :: start <= q < p ==> !IsBoundary(t, q)
    ensures forall k, j :: 0 <= k < |SplitFrom(t, start, p)| ==> !IsBoundary(SplitFrom(t, start, p)[k], j)
    decreases |t| - p
  {
    var r := SplitFrom(t, start, p);
    if p == |t| {
      forall j ensures !IsBoundary(t[start..], j) {
        if IsBoundary(t[start..], j) { BoundaryOfSlice(t, start, |t|, j); }
      }
    } else if IsBoundary(t, p) {
      SplitFromNoCut(t, p + 1, p + 1);
      forall j ensures !IsBoundary(t[start..p], j) {
        if IsBoundary(t[start..p], j) { BoundaryOfSlice(t, start, p, j); }
      }
      assert r == [t[start..p]] + SplitFrom(t, p + 1, p + 1);
    } else {
      SplitFromNoCut(t, start, p + 1);
    }
  }

  /** The split of a collapsed text is exactly at its cut positions: the parts rejoin
      to the text, there is one more part than cuts, and no part holds a cut. */
  lemma PiecesExact(t: string)
    ensures Join(Pieces(t), " ") == t
    ensures |Pieces(t)| == 1 + CutsFrom(t, 0)
    ensures forall k, j :: 0 <= k < |Pieces(t)| ==> !IsBoundary(Pieces(t)[k], j)
  {
    SplitFromJoin(t, 0, 0);
    SplitFromNonEmpty(t, 0, 0);
    SplitFromNoCut(t, 0, 0);
  }

  /** Every part of a collapsed text is itself a slice of it, hence collapsed. */
  lemma {:induction false} SplitFromCollapsed(t: string, start: nat, p: nat)
    requires start <= p <= |t| && Collapsed(t)
    ensures forall s :: s in SplitFrom(t, start, p) ==> Collapsed(s)
    decreases |t| - p
  {
    if p == |t| {
      CollapsedSlice(t, start, |t|);
    } else if IsBoundary(t, p) {
      CollapsedSlice(t, start, p);
      SplitFromCollapsed(t, p + 1, p + 1);
    } else {
      SplitFromCollapsed(t, start, p + 1);
    }
  }

  lemma TrimCollapsed(s: string)
    requires Collapsed(s)
    ensures Collapsed(Trim(s))
  {
    var a := TrimStart(s);
    TrimStartSuffix(s);
    CollapsedSlice(s, |s| - |a|, |s|);
    TrimEndPrefix(a);
    CollapsedSlice(a, 0, |TrimEnd(a)|);
  }

  /** A part the filter keeps was one of its inputs, and is not empty. */
  lemma {:induction false} NonEmptyFrom(parts: seq<string>, s: string)
    requires s in NonEmpty(parts)
    ensures s in parts && s != []
  {
    if parts[0] == [] || s != parts[0] {
      NonEmptyFrom(parts[1..], s);
    }
  }

  /** One sentence is non-empty, trimmed, and its only whitespace is single spaces. */
  lemma SentenceWellFormed(text: string, s: string)
    requires s in SplitSentences(text)
    ensures s != [] && !IsSpace(s[0]) && !IsSpace(s[|s| - 1]) && Collapsed(s)
  {
    var ps := Pieces(Collapse(text));
    var ts := TrimAll(ps);
    NonEmptyFrom(ts, s);
    var i :| 0 <= i < |ts| && ts[i] == s;
    TrimAllAt(ps, i);
    CollapseCollapsed(text);
    SplitFromCollapsed(Collapse(text), 0, 0);
    assert ps[i] in ps;
    TrimCollapsed(ps[i]);
  }

  /** Every sentence is non-empty, trimmed, and its only whitespace is single spaces. */
  lemma SentencesWellFormed(text: string)
    ensures forall s :: s in SplitSentences(text) ==>
      s != [] && !IsSpace(s[0]) && !IsSpace(s[|s| - 1]) && Collapsed(s)
  {
    forall s | s in SplitSentences(text)
      ensures s != [] && !IsSpace(s[0]) && !IsSpace(s[|s| - 1]) && Collapsed(s)
    {
      SentenceWellFormed(text, s);
    }
  }
}
