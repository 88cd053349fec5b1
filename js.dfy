/** The few JavaScript runtime behaviours the travel-agent scripts rely on,
    written out once: optional values and results, JSON values as JSON.parse
    produces them, the whitespace class shared by `\s` and `String.prototype.trim`,
    `join`, `slice(0, k)`, `indexOf`, ASCII `toLowerCase`, `includes`,
    `Number(string)` on decimal literals, and integer-to-decimal conversion. */
module Js {

  datatype Option<+T> = None | Some(value: T)

  datatype Result<+T, +E> = Success(value: T) | Failure(error: E)

  /** A JSON value as returned by JSON.parse (object members in source order). */
  datatype Json =
    | JNull
    | JBool(b: bool)
    | JNum(n: real)
    | JStr(s: string)
    | JArr(elems: seq<Json>)
    | JObj(fields: seq<(string, Json)>)

  /** JSON.parse: the parsed value, or the message of the SyntaxError it throws. */
  type JsonParser = string -> Result<Json, string>

  /** Outcome of reading a file as UTF-8 text. */
  datatype FileRead = NotFound | ReadError(message: string) | Contents(text: string)

  // ---------------------------------------------------------------- characters

  /** The characters matched by `\s` and removed by `trim`: WhiteSpace and LineTerminator. */
  predicate IsSpace(c: char)
  {
    c == ' ' || c == '\t' || c == '\n' || c == '\r' || c == '\U{B}' || c == '\U{C}'
    || c == '\U{A0}' || c == '\U{1680}' || ('\U{2000}' <= c <= '\U{200A}')
    || c == '\U{2028}' || c == '\U{2029}' || c == '\U{202F}' || c == '\U{205F}'
    || c == '\U{3000}' || c == '\U{FEFF}'
  }

  /** The characters `.` does not match in a regular expression. */
  predicate IsLineTerminator(c: char)
  {
    c == '\n' || c == '\r' || c == '\U{2028}' || c == '\U{2029}'
  }

  predicate IsDigit(c: char) { '0' <= c <= '9' }

  /** `toLowerCase` on ASCII letters; other characters are kept. */
  function LowerChar(c: char): (r: char)
    ensures 'A' <= c <= 'Z' ==> r != c && 'a' <= r <= 'z'
    ensures !('A' <= c <= 'Z') ==> r == c
  {
    if 'A' <= c <= 'Z' then (c as int - 'A' as int + 'a' as int) as char else c
  }

  function Lower(s: string): (r: string)
    ensures |r| == |s|
    ensures forall i :: 0 <= i < |s| ==> r[i] == LowerChar(s[i])
  {
    if s == [] then [] else [LowerChar(s[0])] + Lower(s[1..])
  }

  lemma {:induction false} LowerAppend(a: string, b: string)
    ensures Lower(a + b) == Lower(a) + Lower(b)
  {
    if a == [] {
      assert a + b == b;
    } else {
      assert (a + b)[1..] == a[1..] + b;
      LowerAppend(a[1..], b);
    }
  }

  // ---------------------------------------------------------------- strings

  function TrimStart(s: string): (r: string)
    ensures |r| <= |s|
    ensures r == [] || !IsSpace(r[0])
    ensures s != [] && IsSpace(s[0]) ==> |r| < |s|
  {
    if s != [] && IsSpace(s[0]) then TrimStart(s[1..]) else s
  }

  /** Trimming the start drops a prefix made only of whitespace. */
  lemma {:induction false} TrimStartSuffix(s: string)
    ensures TrimStart(s) == s[|s| - |TrimStart(s)|..]
    ensures forall i :: 0 <= i < |s| - |TrimStart(s)| ==> IsSpace(s[i])
  {
    if s != [] && IsSpace(s[0]) {
      TrimStartSuffix(s[1..]);
    }
  }

  function TrimEnd(s: string): (r: string)
    ensures |r| <= |s|
    ensures r == [] || !IsSpace(r[|r| - 1])
  {
    if s != [] && IsSpace(s[|s| - 1]) then TrimEnd(s[..|s| - 1]) else s
  }

  /** Trimming the end drops a suffix made only of whitespace. */
  lemma {:induction false} TrimEndPrefix(s: string)
    ensures TrimEnd(s) == s[..|TrimEnd(s)|]
    ensures forall i :: |TrimEnd(s)| <= i < |s| ==> IsSpace(s[i])
  {
    if s != [] && IsSpace(s[|s| - 1]) {
      TrimEndPrefix(s[..|s| - 1]);
    }
  }

  /** `String.prototype.trim`. */
  function Trim(s: string): (r: string)
    ensures r == [] || (!IsSpace(r[0]) && !IsSpace(r[|r| - 1]))
    ensures |r| <= |s|
  {
    TrimEndPrefix(TrimStart(s));
    TrimEnd(TrimStart(s))
  }

  /** `Array.prototype.join(sep)` on strings. */
  function Join(parts: seq<string>, sep: string): string
  {
    if parts == [] then []
    else if |parts| == 1 then parts[0]
    else parts[0] + sep + Join(parts[1..], sep)
  }

  lemma JoinAppend(parts: seq<string>, x: string, sep: string)
    requires parts != []
    ensures Join(parts + [x], sep) == Join(parts, sep) + sep + x
  {
    if |parts| == 1 {
      assert (parts + [x])[1..] == [x];
    } else {
      assert (parts + [x])[1..] == parts[1..] + [x];
      JoinAppend(parts[1..], x, sep);
    }
  }

  lemma JoinSnocLength(parts: seq<string>, x: string, sep: string)
    ensures |Join(parts + [x], sep)| == if parts == [] then |x| else |Join(parts, sep)| + |sep| + |x|
  {
    if parts == [] { assert parts + [x] == [x]; } else { JoinAppend(parts, x, sep); }
  }

  /** Dropping leading parts never lengthens the joined text. */
  lemma {:induction false} JoinSuffixLength(parts: seq<string>, k: nat, sep: string)
    requires k <= |parts|
    ensures |Join(parts[k..], sep)| <= |Join(parts, sep)|
    decreases k
  {
    if k > 0 {
      JoinSuffixLength(parts[1..], k - 1, sep);
      assert parts[1..][k - 1..] == parts[k..];
    }
  }

  /** A join whose first part is non-empty is non-empty. */
  lemma JoinNonEmpty(parts: seq<string>, sep: string)
    requires parts != [] && parts[0] != []
    ensures Join(parts, sep) != [] && Join(parts, sep)[0] == parts[0][0]
  {
  }

  /** `s.startsWith(p)`. */
  predicate StartsWith(s: string, p: string) { |p| <= |s| && s[..|p|] == p }

  /** `s.endsWith(p)`. */
  predicate EndsWith(s: string, p: string) { |p| <= |s| && s[|s| - |p|..] == p }

  /** `s.includes(t)`. */
  predicate Contains(s: string, t: string)
  {
    exists i :: 0 <= i <= |s| && StartsWith(s[i..], t)
  }

  lemma ContainsSelf(t: string)
    ensures Contains(t, t)
  {
    assert StartsWith(t[0..], t);
  }

  /** Text found in `a` is found in `a + b`. */
  lemma ContainsLeft(a: string, b: string, t: string)
    requires Contains(a, t)
    ensures Contains(a + b, t)
  {
    var i :| 0 <= i <= |a| && StartsWith(a[i..], t);
    assert (a + b)[i..][..|t|] == a[i..][..|t|];
  }

  /** Text found in `b` is found in `a + b`. */
  lemma ContainsRight(a: string, b: string, t: string)
    requires Contains(b, t)
    ensures Contains(a + b, t)
  {
    var i :| 0 <= i <= |b| && StartsWith(b[i..], t);
    assert (a + b)[|a| + i..] == b[i..];
  }

  /** Every part of a join is found in the joined text. */
  lemma {:induction false} JoinContains(parts: seq<string>, sep: string, k: nat)
    requires k < |parts|
    ensures Contains(Join(parts, sep), parts[k])
  {
    ContainsSelf(parts[k]);
    if |parts| > 1 {
      if k == 0 {
        ContainsLeft(parts[0], sep + Join(parts[1..], sep), parts[0]);
        assert parts[0] + sep + Join(parts[1..], sep) == parts[0] + (sep + Join(parts[1..], sep));
      } else {
        JoinContains(parts[1..], sep, k - 1);
        ContainsRight(parts[0] + sep, Join(parts[1..], sep), parts[k]);
      }
    }
  }

  /** `s.slice(0, k)` for an integer `k`: a negative `k` counts from the end. */
  function Slice0<T>(s: seq<T>, k: int): (r: seq<T>)
    ensures 0 <= k ==> |r| == if k < |s| then k else |s|
    ensures k < 0 ==> |r| == if |s| + k < 0 then 0 else |s| + k
    ensures r == s[..|r|]
  {
    if k >= 0 then (if k < |s| then s[..k] else s)
    else if |s| + k < 0 then [] else s[..|s| + k]
  }

  /** `s.indexOf(c)`: the first position of `c`, or -1. */
  function IndexOf(s: string, c: char): (r: int)
    ensures -1 <= r < |s|
    ensures r == -1 <==> c !in s
    ensures r >= 0 ==> s[r] == c && c !in s[..r]
  {
    if s == [] then -1
    else if s[0] == c then 0
    else var k := IndexOf(s[1..], c); if k == -1 then -1 else k + 1
  }

  /** `s.lastIndexOf(c)`: the last position of `c`, or -1. */
  function LastIndexOf(s: string, c: char): (r: int)
    ensures -1 <= r < |s|
    ensures r == -1 <==> c !in s
    ensures r >= 0 ==> s[r] == c && c !in s[r + 1..]
  {
    if s == [] then -1
    else if s[|s| - 1] == c then |s| - 1
    else LastIndexOf(s[..|s| - 1], c)
  }

  /** A character found at `i` and nowhere before is what `indexOf` finds. */
  lemma IndexOfAt(s: string, c: char, i: nat)
    requires i < |s| && s[i] == c
    requires forall x :: 0 <= x < i ==> s[x] != c
    ensures IndexOf(s, c) == i
  {
    assert s[i] in s;
  }

  /** A character found at `i` and nowhere after is what `lastIndexOf` finds. */
  lemma LastIndexOfAt(s: string, c: char, i: nat)
    requires i < |s| && s[i] == c
    requires forall x :: i < x < |s| ==> s[x] != c
    ensures LastIndexOf(s, c) == i
  {
    assert s[i] in s;
  }

  // ---------------------------------------------------------------- numbers

  function DigitChar(d: nat): (c: char)
    requires d < 10
    ensures IsDigit(c)
  {
    ('0' as int + d) as char
  }

  function DigitOf(c: char): (d: nat)
    requires IsDigit(c)
    ensures d < 10 && DigitChar(d) == c
  {
    c as int - '0' as int
  }

  /** Decimal text of a natural number, as template literals print it. */
  function NatToString(n: nat): (s: string)
    ensures s != [] && forall i :: 0 <= i < |s| ==> IsDigit(s[i])
  {
    if n < 10 then [DigitChar(n)] else NatToString(n / 10) + [DigitChar(n % 10)]
  }

  function IntToString(i: int): string
  {
    if i < 0 then "-" + NatToString(-i) else NatToString(i)
  }

  predicate AllDigits(s: string) { forall i :: 0 <= i < |s| ==> IsDigit(s[i]) }

  /** Value of a string of decimal digits. */
  function DigitsValue(s: string): nat
    requires AllDigits(s)
  {
    if s == [] then 0 else 10 * DigitsValue(s[..|s| - 1]) + DigitOf(s[|s| - 1])
  }

  lemma {:induction false} DigitsOfNat(n: nat)
    ensures DigitsValue(NatToString(n)) == n
  {
    var s := NatToString(n);
    if n >= 10 {
      assert s[..|s| - 1] == NatToString(n / 10);
      DigitsOfNat(n / 10);
    }
  }

  function Pow10(k: nat): (r: nat)
    ensures r >= 1
  {
    if k == 0 then 1 else 10 * Pow10(k - 1)
  }

  /** Value of an unsigned decimal literal `a` or `a.b`, `.b`, `a.` (at least one digit). */
  function UnsignedDecimal(s: string): Option<real>
  {
    var dot := IndexOf(s, '.');
    var a := if dot == -1 then s else s[..dot];
    var b := if dot == -1 then "" else s[dot + 1..];
    if |a| + |b| == 0 || !AllDigits(a) || !AllDigits(b) then None
    else Some(DigitsValue(a) as real + DigitsValue(b) as real / Pow10(|b|) as real)
  }

  /** `Number(s)` for a string, restricted to finite results: surrounding whitespace
      is ignored, the empty string is 0, an optional sign precedes a decimal literal.
      None stands for NaN (and for the infinities, which are never finite). */
  function NumberOf(s: string): Option<real>
  {
    var t := Trim(s);
    if t == [] then Some(0.0)
    else if t[0] == '-' then
      match UnsignedDecimal(t[1..]) case Some(v) => Some(-v) case None => None
    else if t[0] == '+' then UnsignedDecimal(t[1..])
    else UnsignedDecimal(t)
  }

  /** A string of digits with no point is read whole. */
  lemma UnsignedDigits(s: string)
    requires s != [] && AllDigits(s)
    ensures UnsignedDecimal(s) == Some(DigitsValue(s) as real)
  {
    assert '.' !in s by {
      forall i | 0 <= i < |s| ensures s[i] != '.' { assert IsDigit(s[i]); }
    }
    assert IndexOf(s, '.') == -1;
    assert DigitsValue("") == 0;
  }

  /** A plain string of decimal digits converts to its value. */
  lemma NumberOfDigits(s: string)
    requires s != [] && AllDigits(s)
    ensures NumberOf(s) == Some(DigitsValue(s) as real)
  {
    assert IsDigit(s[0]) && IsDigit(s[|s| - 1]);
    assert Trim(s) == s by {
      assert TrimStart(s) == s;
      assert TrimEnd(s) == s;
    }
    assert s[0] != '-' && s[0] != '+';
    UnsignedDigits(s);
  }

  /** `Number(v)` for a JSON value; None stands for NaN. */
  function JsonNumber(v: Json): Option<real>
  {
    match v
    case JNull => Some(0.0)
    case JBool(b) => Some(if b then 1.0 else 0.0)
    case JNum(n) => Some(n)
    case JStr(s) => NumberOf(s)
    case JObj(_) => None
    case JArr(es) => ArrayNumber(es)
  }

  /** `Number` of an array: its `join(",")` text converted; null elements print as "". */
  function ArrayNumber(es: seq<Json>): Option<real>
  {
    if es == [] then Some(0.0)
    else if |es| > 1 then None
    else match es[0]
      case JNull => Some(0.0)
      case JBool(_) => None
      case JNum(n) => Some(n)
      case JStr(s) => NumberOf(s)
      case JObj(_) => None
      case JArr(inner) => ArrayNumber(inner)
  }

  /** `obj[key]` on a JSON value: the last member of that name of an object
      (JSON.parse keeps the last duplicate); None for `undefined`. */
  function Member(v: Json, key: string): Option<Json>
  {
    match v
    case JObj(fields) => LastMember(fields, key)
    case _ => None
  }

  function LastMember(fields: seq<(string, Json)>, key: string): (r: Option<Json>)
    ensures r.Some? <==> exists i :: 0 <= i < |fields| && fields[i].0 == key
  {
    if fields == [] then None
    else if fields[|fields| - 1].0 == key then Some(fields[|fields| - 1].1)
    else LastMember(fields[..|fields| - 1], key)
  }

  /** A found member is the value of the last field with the key, as JSON.parse keeps
      the last of duplicate keys. */
  lemma {:induction false} LastMemberLast(fields: seq<(string, Json)>, key: string)
    ensures LastMember(fields, key).Some? ==> exists i ::
      && 0 <= i < |fields| && fields[i] == (key, LastMember(fields, key).value)
      && forall j :: i < j < |fields| ==> fields[j].0 != key
    decreases |fields|
  {
    if fields != [] && fields[|fields| - 1].0 != key {
      LastMemberLast(fields[..|fields| - 1], key);
    }
  }

  /** A key whose last occurrence is at `k` is read from there. */
  lemma {:induction false} LastMemberAt(fields: seq<(string, Json)>, key: string, k: nat)
    requires k < |fields| && fields[k].0 == key
    requires forall i :: k < i < |fields| ==> fields[i].0 != key
    ensures LastMember(fields, key) == Some(fields[k].1)
    decreases |fields|
  {
    if k < |fields| - 1 {
      LastMemberAt(fields[..|fields| - 1], key, k);
    }
  }

  /** A key no field has is not found. */
  lemma LastMemberAbsent(fields: seq<(string, Json)>, key: string)
    requires forall i :: 0 <= i < |fields| ==> fields[i].0 != key
    ensures LastMember(fields, key) == None
  {
  }
}
