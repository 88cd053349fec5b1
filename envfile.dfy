/** `loadEnvLocal` of scripts/embed.ts: reads `.env.local` line by line and sets
    `KEY=value` pairs in the process environment, never replacing a variable that is
    already set. A file that cannot be read changes nothing. */
module EnvFile {
  import opened Js

  // ---------------------------------------------------------------- lines

  /** `txt.split(/\r?\n/)` scanning from `p`, the current line having started at `start`;
      a carriage return just before a line feed belongs to the separator. */
  function SplitLinesFrom(s: string, start: nat, p: nat): seq<string>
    requires start <= p <= |s|
    decreases |s| - p
  {
    if p == |s| then [s[start..]]
    else if s[p] == '\n' then
      var end := if p > start && s[p - 1] == '\r' then p - 1 else p;
      [s[start..end]] + SplitLinesFrom(s, p + 1, p + 1)
    else SplitLinesFrom(s, start, p + 1)
  }

  function SplitLines(s: string): seq<string>
  {
    SplitLinesFrom(s, 0, 0)
  }

  /** No line holds a line feed, and there is one line more than line feeds. */
  lemma {:induction false} SplitLinesFromShape(s: string, start: nat, p: nat)
    requires start <= p <= |s|
    requires forall q :: start <= q < p ==> s[q] != '\n'
    ensures forall k :: 0 <= k < |SplitLinesFrom(s, start, p)| ==> '\n' !in SplitLinesFrom(s, start, p)[k]
    ensures |SplitLinesFrom(s, start, p)| == 1 + multiset(s[p..])['\n']
    decreases |s| - p
  {
    var r := SplitLinesFrom(s, start, p);
    if p == |s| {
      assert '\n' !in s[start..] by {
        forall q | 0 <= q < |s[start..]| ensures s[start..][q] != '\n' { assert s[start..][q] == s[start + q]; }
      }
    } else {
      assert s[p..] == [s[p]] + s[p + 1..];
      if s[p] == '\n' {
        var end := if p > start && s[p - 1] == '\r' then p - 1 else p;
        SplitLinesFromShape(s, p + 1, p + 1);
        assert '\n' !in s[start..end] by {
          forall q | 0 <= q < |s[start..end]| ensures s[start..end][q] != '\n' { assert s[start..end][q] == s[start + q]; }
        }
        assert r == [s[start..end]] + SplitLinesFrom(s, p + 1, p + 1);
      } else {
        SplitLinesFromShape(s, start, p + 1);
      }
    }
  }

  /** Lines never contain a line feed; a text with `n` line feeds has `n + 1` lines. */
  lemma SplitLinesShape(s: string)
    ensures forall k :: 0 <= k < |SplitLines(s)| ==> '\n' !in SplitLines(s)[k]
    ensures |SplitLines(s)| == 1 + multiset(s)['\n']
  {
    assert s[0..] == s;
    SplitLinesFromShape(s, 0, 0);
  }

  // ---------------------------------------------------------------- one line

  /** The characters of `[\w.-]`. */
  predicate IsKeyChar(c: char)
  {
    ('A' <= c <= 'Z') || ('a' <= c <= 'z') || ('0' <= c <= '9') || c == '_' || c == '.' || c == '-'
  }

  predicate IsKey(k: string)
  {
    k != [] && forall i :: 0 <= i < |k| ==> IsKeyChar(k[i])
  }

  /** Length of the longest prefix of key characters. */
  function KeyRun(s: string): (n: nat)
    ensures n <= |s| && (n == |s| || !IsKeyChar(s[n]))
    ensures forall i :: 0 <= i < n ==> IsKeyChar(s[i])
  {
    if s != [] && IsKeyChar(s[0]) then 1 + KeyRun(s[1..]) else 0
  }

  /** Index of the first line terminator, or the length when there is none. */
  function LineEnd(s: string): (e: nat)
    ensures e <= |s| && (e == |s| || IsLineTerminator(s[e]))
    ensures forall i :: 0 <= i < e ==> !IsLineTerminator(s[i])
  {
    if s == [] || IsLineTerminator(s[0]) then 0 else 1 + LineEnd(s[1..])
  }

  /** `/^\s*#/`: a comment line. */
  predicate IsComment(line: string)
  {
    var t := TrimStart(line);
    t != [] && t[0] == '#'
  }

  /** A value wrapped in one pair of matching double or single quotes. */
  predicate Quoted(v: string)
  {
    v != [] && ((v[0] == '"' && v[|v| - 1] == '"') || (v[0] == '\'' && v[|v| - 1] == '\''))
  }

  /** `val.slice(1, -1)` on a quoted value; a lone quote becomes the empty string. */
  function Unquote(v: string): string
  {
    if !Quoted(v) then v else if |v| >= 2 then v[1..|v| - 1] else []
  }

  /** The pair a line sets, or None when it is empty, a comment, or does not match
      `/^\s*([\w.-]+)\s*=\s*(.*)\s*$/`. The dot of `(.*)` stops at the first line
      terminator, and only whitespace may follow it. */
  function ParseLine(line: string): Option<(string, string)>
  {
    if line == [] || IsComment(line) then None
    else
      var t := TrimStart(line);
      var n := KeyRun(t);
      var afterKey := TrimStart(t[n..]);
      if n == 0 || afterKey == [] || afterKey[0] != '=' then None
      else
        var rest := TrimStart(afterKey[1..]);
        var e := LineEnd(rest);
        if TrimStart(rest[e..]) != [] then None
        else Some((t[..n], Unquote(Trim(rest[..e]))))
  }

  /** A key starts the line, so the line is neither empty, indented nor a comment. */
  lemma KeyStartsLine(k: string, tail: string)
    requires IsKey(k)
    ensures TrimStart(k + tail) == k + tail && !IsComment(k + tail)
  {
    assert (k + tail)[0] == k[0];
  }

  /** After the key, `=` and then a value that starts with no whitespace. */
  lemma AfterKey(r: string)
    requires forall i :: 0 <= i < |r| ==> !IsLineTerminator(r[i])
    requires r == [] || !IsSpace(r[0])
    ensures TrimStart("=" + r) == "=" + r && ("=" + r)[1..] == r
    ensures TrimStart(r) == r && LineEnd(r) == |r| && TrimStart(r[|r|..]) == [] && r[..|r|] == r
  {
    assert ("=" + r)[0] == '=';
    LineEndOf(r);
    assert r[|r|..] == [];
  }

  /** A line `KEY=rest`, where `rest` starts with no whitespace and stays on one line,
      binds the key to the trimmed and unquoted rest. */
  lemma ParseBinding(k: string, r: string)
    requires IsKey(k)
    requires forall i :: 0 <= i < |r| ==> !IsLineTerminator(r[i])
    requires r == [] || !IsSpace(r[0])
    ensures ParseLine(k + "=" + r) == Some((k, Unquote(Trim(r))))
  {
    var tail := "=" + r;
    assert k + "=" + r == k + tail;
    KeyStartsLine(k, tail);
    KeyRunOf(k, tail);
    assert (k + tail)[|k|..] == tail && (k + tail)[..|k|] == k;
    AfterKey(r);
  }

  /** A value with no whitespace at either end is its own trim. */
  lemma TrimmedValue(v: string)
    requires v == [] || (!IsSpace(v[0]) && !IsSpace(v[|v| - 1]))
    ensures Trim(v) == v
  {
    assert TrimStart(v) == v;
    assert TrimEnd(v) == v;
  }

  lemma QuotedOneLine(v: string)
    requires forall i :: 0 <= i < |v| ==> !IsLineTerminator(v[i])
    ensures forall i :: 0 <= i < |"\"" + v + "\""| ==> !IsLineTerminator(("\"" + v + "\"")[i])
  {
    var q := "\"" + v + "\"";
    forall i | 0 <= i < |q| ensures !IsLineTerminator(q[i]) {
      if 0 < i < |q| - 1 { assert q[i] == v[i - 1]; }
    }
  }

  /** A line written as `KEY="value"` gives back the key and the value exactly, whatever
      spaces or quotes the value holds, as long as it stays on one line. */
  lemma ParseQuoted(k: string, v: string)
    requires IsKey(k)
    requires forall i :: 0 <= i < |v| ==> !IsLineTerminator(v[i])
    ensures ParseLine(k + "=\"" + v + "\"") == Some((k, v))
  {
    var q := "\"" + v + "\"";
    assert k + "=\"" + v + "\"" == k + "=" + q;
    QuotedOneLine(v);
    ParseBinding(k, q);
    TrimmedValue(q);
    assert q[1..|q| - 1] == v;
  }

  /** A line written as `KEY=value` gives back the key and the value, when the value has
      no surrounding whitespace, no line terminator and no enclosing quotes. */
  lemma ParsePlain(k: string, v: string)
    requires IsKey(k)
    requires forall i :: 0 <= i < |v| ==> !IsLineTerminator(v[i])
    requires v == [] || (!IsSpace(v[0]) && !IsSpace(v[|v| - 1]) && !Quoted(v))
    ensures ParseLine(k + "=" + v) == Some((k, v))
  {
    ParseBinding(k, v);
    TrimmedValue(v);
  }

  lemma {:induction false} KeyRunOf(k: string, rest: string)
    requires forall i :: 0 <= i < |k| ==> IsKeyChar(k[i])
    requires rest != [] && !IsKeyChar(rest[0])
    ensures KeyRun(k + rest) == |k|
  {
    if k != [] {
      assert (k + rest)[1..] == k[1..] + rest;
      KeyRunOf(k[1..], rest);
    }
  }

  lemma {:induction false} LineEndOf(s: string)
    requires forall i :: 0 <= i < |s| ==> !IsLineTerminator(s[i])
    ensures LineEnd(s) == |s|
  {
    if s != [] {
      LineEndOf(s[1..]);
    }
  }

  // ---------------------------------------------------------------- the environment

  /** Names every object, the process environment included, inherits from
      `Object.prototype`; the `in` operator reports them as present. */
  const InheritedNames: set<string> :=
    {"constructor", "hasOwnProperty", "isPrototypeOf", "propertyIsEnumerable",
     "toLocaleString", "toString", "valueOf", "__proto__", "__defineGetter__",
     "__defineSetter__", "__lookupGetter__", "__lookupSetter__"}

  /** `key in process.env`: set in the environment, or inherited. */
  predicate Present(env: map<string, string>, k: string)
  {
    k in env || k in InheritedNames
  }

  /** One line applied to the environment: a parsed pair is set unless the key is present. */
  function Bind(env: map<string, string>, line: string): map<string, string>
  {
    match ParseLine(line)
    case None => env
    case Some(kv) => if Present(env, kv.0) then env else env[kv.0 := kv.1]
  }

  /** The environment after the lines, applied in order. */
  function Apply(env: map<string, string>, lines: seq<string>): map<string, string>
    decreases |lines|
  {
    if lines == [] then env else Apply(Bind(env, lines[0]), lines[1..])
  }

  /** The value the first line setting `k` gives it, if any line does. */
  function FirstBinding(lines: seq<string>, k: string): Option<string>
  {
    if lines == [] then None
    else match ParseLine(lines[0])
      case Some(kv) => if kv.0 == k then Some(kv.1) else FirstBinding(lines[1..], k)
      case None => FirstBinding(lines[1..], k)
  }

  /** A variable already set keeps its value, and an inherited name is never set; any
      other name takes the value of the first line that sets it, and stays unset when no
      line does. */
  lemma {:induction false} ApplyMeaning(env: map<string, string>, lines: seq<string>, k: string)
    ensures k in env ==> k in Apply(env, lines) && Apply(env, lines)[k] == env[k]
    ensures k !in env && k in InheritedNames ==> k !in Apply(env, lines)
    ensures !Present(env, k) ==> (k in Apply(env, lines) <==> FirstBinding(lines, k).Some?)
    ensures !Present(env, k) && FirstBinding(lines, k).Some? ==> Apply(env, lines)[k] == FirstBinding(lines, k).value
    decreases |lines|
  {
    if lines != [] {
      var env' := Bind(env, lines[0]);
      ApplyMeaning(env', lines[1..], k);
    }
  }

  /** Loading never removes a variable. */
  lemma {:induction false} ApplyGrows(env: map<string, string>, lines: seq<string>)
    ensures env.Keys <= Apply(env, lines).Keys
    decreases |lines|
  {
    if lines != [] {
      ApplyGrows(Bind(env, lines[0]), lines[1..]);
    }
  }

  /** The process environment the loader writes into. */
  class ProcessEnv {
    var vars: map<string, string>

    constructor (initial: map<string, string>)
      ensures vars == initial
    {
      vars := initial;
    }

    /** Reads `.env.local` (given as the outcome of reading it) and binds its lines;
        a missing or unreadable file is ignored. */
    method LoadEnvLocal(file: FileRead)
      modifies this
      ensures file.Contents? ==> vars == Apply(old(vars), SplitLines(file.text))
      ensures !file.Contents? ==> vars == old(vars)
    {
      if !file.Contents? {
        return;
      }
      var lines := SplitLines(file.text);
      var k := 0;
      while k < |lines|
        invariant k <= |lines|
        invariant Apply(old(vars), lines) == Apply(vars, lines[k..])
      {
        assert lines[k..][1..] == lines[k + 1..];
        var line := lines[k];
        k := k + 1;
        if line == [] || IsComment(line) {
          continue;
        }
        var m := ParseLine(line);
        if m.None? {
          continue;
        }
        var key := m.value.0;
        if !Present(vars, key) {
          vars := vars[key := m.value.1];
        }
      }
    }
  }
}
