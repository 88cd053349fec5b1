/** `parseJsonLoose` of lib/search.ts: reads a model reply as JSON, trying the whole
    text, then the body of the first fenced code block, then the text from the first
    `[` to the last `]`; null (here None) when none of them parses. JSON.parse itself
    is a parameter. */
module LooseJson {
  import opened Js

  const Fence: string := "```"

  /** Where the body of a fence opened at `p` starts: after the three backticks, an
      optional `json` tag in any letter case, and the whitespace after it. (Backtracking
      into the optional tag or the whitespace finds no other closing fence, so the
      regular expression keeps this greedy choice whenever it matches.) */
  function BodyStart(raw: string, p: nat): (b: nat)
    requires p + 3 <= |raw|
    ensures p + 3 <= b <= |raw|
  {
    var t := p + 3;
    var t' := if t + 4 <= |raw| && Lower(raw[t..t + 4]) == "json" then t + 4 else t;
    t' + (|raw[t'..]| - |TrimStart(raw[t'..])|)
  }

  /** The lazy body ends at the first position from `q` on where optional whitespace and
      a closing fence follow. */
  function FenceEnd(raw: string, q: nat): (r: Option<nat>)
    requires q <= |raw|
    ensures r.Some? ==> q <= r.value <= |raw|
    decreases |raw| - q
  {
    if StartsWith(TrimStart(raw[q..]), Fence) then Some(q)
    else if q == |raw| then None
    else FenceEnd(raw, q + 1)
  }

  /** `raw.match(/```(?:json)?\s*([\s\S]*?)\s*```/i)` searched from position `p`:
      the captured body of the leftmost match, or None. */
  function FenceFrom(raw: string, p: nat): Option<string>
    decreases |raw| - p
  {
    if p + 3 > |raw| then None
    else if StartsWith(raw[p..], Fence) && FenceEnd(raw, BodyStart(raw, p)).Some? then
      Some(raw[BodyStart(raw, p)..FenceEnd(raw, BodyStart(raw, p)).value])
    else FenceFrom(raw, p + 1)
  }

  function Fenced(raw: string): Option<string>
  {
    FenceFrom(raw, 0)
  }

  /** JSON.parse with its exception caught. */
  function TryParse(parse: JsonParser, text: string): Option<Json>
  {
    match parse(text)
    case Success(v) => Some(v)
    case Failure(_) => None
  }

  function ParseJsonLoose(raw: string, parse: JsonParser): Option<Json>
  {
    var whole := TryParse(parse, raw);
    if whole.Some? then whole
    else
      var fenced := match Fenced(raw) case Some(body) => TryParse(parse, body) case None => None;
      if fenced.Some? then fenced
      else
        var s := IndexOf(raw, '[');
        var e := LastIndexOf(raw, ']');
        if s != -1 && e != -1 && e > s then TryParse(parse, raw[s..e + 1]) else None
  }

  // ---------------------------------------------------------------- properties

  /** Whatever the loose reader returns is JSON.parse of some slice of the reply. */
  lemma {:induction false} FenceFromSlice(raw: string, p: nat)
    requires FenceFrom(raw, p).Some?
    ensures exists a, b :: 0 <= a <= b <= |raw| && FenceFrom(raw, p).value == raw[a..b]
    decreases |raw| - p
  {
    if !(StartsWith(raw[p..], Fence) && FenceEnd(raw, BodyStart(raw, p)).Some?) {
      FenceFromSlice(raw, p + 1);
    }
  }

  lemma LooseSound(raw: string, parse: JsonParser)
    requires ParseJsonLoose(raw, parse).Some?
    ensures exists a, b ::
      0 <= a <= b <= |raw| && parse(raw[a..b]) == Success(ParseJsonLoose(raw, parse).value)
  {
    var v := ParseJsonLoose(raw, parse).value;
    if parse(raw).Success? {
      assert raw[0..|raw|] == raw;
    } else if Fenced(raw).Some? && parse(Fenced(raw).value).Success? {
      FenceFromSlice(raw, 0);
    } else {
      var s := IndexOf(raw, '[');
      var e := LastIndexOf(raw, ']');
      assert parse(raw[s..e + 1]) == Success(v);
    }
  }

  /** The first non-space character of a text is what trimming its start leaves first. */
  lemma TrimStartFirst(x: string, i: nat)
    requires i < |x| && !IsSpace(x[i])
    ensures TrimStart(x) != []
    ensures exists d :: 0 <= d <= i && TrimStart(x)[0] == x[d]
  {
    TrimStartSuffix(x);
    var d := |x| - |TrimStart(x)|;
    assert d <= i;
    assert TrimStart(x)[0] == x[d];
  }

  /** Positions before any backtick open no fence. */
  lemma {:induction false} FenceFromSkip(raw: string, p: nat, p': nat)
    requires p <= p' <= |raw|
    requires forall x :: p <= x < p' ==> raw[x] != '`'
    ensures FenceFrom(raw, p) == FenceFrom(raw, p')
    decreases p' - p
  {
    if p < p' {
      if p + 3 <= |raw| {
        assert raw[p..][..3][0] == raw[p];
      }
      FenceFromSkip(raw, p + 1, p');
    }
  }

  /** Positions inside a body without backticks and with a non-space last character
      close no fence. */
  lemma {:induction false} FenceEndSkip(raw: string, q: nat, q': nat)
    requires q <= q' < |raw|
    requires forall x :: q <= x <= q' ==> raw[x] != '`'
    requires !IsSpace(raw[q'])
    ensures FenceEnd(raw, q) == FenceEnd(raw, q' + 1)
    decreases q' - q
  {
    TrimStartFirst(raw[q..], q' - q);
    var d :| 0 <= d <= q' - q && TrimStart(raw[q..])[0] == raw[q..][d];
    assert raw[q..][d] == raw[q + d];
    if q < q' {
      FenceEndSkip(raw, q + 1, q');
    }
  }

  /** One space before a non-space character is all that trimming the start removes. */
  lemma TrimStartOne(x: string)
    requires |x| >= 2 && IsSpace(x[0]) && !IsSpace(x[1])
    ensures TrimStart(x) == x[1..]
  {
  }

  lemma LowerJson()
    ensures Lower("json") == "json"
  {
    var l := Lower("json");
    assert l[0] == 'j' && l[1] == 's' && l[2] == 'o' && l[3] == 'n';
  }

  const Open: string := "```json\n"
  const Close: string := "\n```"

  /** A body that starts and ends with non-space and holds no backtick. */
  predicate BodyOk(body: string)
  {
    body != [] && !IsSpace(body[0]) && !IsSpace(body[|body| - 1]) && '`' !in body
  }

  /** The reply holds, from `p` on, a fence opened with the tag `json` and a newline,
      the body, and a newline before the closing fence, with no backtick before `p`. */
  ghost predicate FenceAt(raw: string, p: nat, body: string)
  {
    && BodyOk(body) && p + 12 + |body| <= |raw|
    && '`' !in raw[..p]
    && raw[p..p + 8] == Open
    && raw[p + 8..p + 8 + |body|] == body
    && raw[p + 8 + |body|..p + 12 + |body|] == Close
  }

  lemma FenceAtStart(raw: string, p: nat, body: string)
    requires FenceAt(raw, p, body)
    ensures p + 3 <= |raw| && StartsWith(raw[p..], Fence) && BodyStart(raw, p) == p + 8
  {
    assert raw[p..][..3] == raw[p..p + 8][..3];
    forall i | 0 <= i < 4 ensures raw[p + 3..p + 7][i] == "json"[i] {
      assert raw[p + 3 + i] == raw[p..p + 8][3 + i];
    }
    LowerJson();
    assert raw[p + 7..][0] == raw[p..p + 8][7];
    assert raw[p + 7..][1] == raw[p + 8..p + 8 + |body|][0];
    TrimStartOne(raw[p + 7..]);
  }

  lemma FenceAtEnd(raw: string, p: nat, body: string)
    requires FenceAt(raw, p, body)
    ensures FenceEnd(raw, p + 8) == Some(p + 8 + |body|)
  {
    var b := p + 8;
    var q := b + |body|;
    forall x | b <= x <= q - 1 ensures raw[x] != '`' {
      assert raw[x] == raw[b..q][x - b];
    }
    assert raw[q - 1] == raw[b..q][|body| - 1];
    FenceEndSkip(raw, b, q - 1);
    var c := raw[q..q + 4];
    assert raw[q..][0] == c[0] && raw[q..][1] == c[1];
    TrimStartOne(raw[q..]);
    assert raw[q..][1..][..3] == c[1..];
  }

  /** A fence that opens at `p` and closes is the match from `p`. */
  lemma FenceFromHere(raw: string, p: nat, b: nat, q: nat)
    requires p + 3 <= |raw| && StartsWith(raw[p..], Fence) && BodyStart(raw, p) == b
    requires FenceEnd(raw, b) == Some(q)
    ensures FenceFrom(raw, p) == Some(raw[b..q])
  {
  }

  lemma FenceAtBody(raw: string, p: nat, body: string)
    requires FenceAt(raw, p, body)
    ensures Fenced(raw) == Some(body)
  {
    forall x | 0 <= x < p ensures raw[x] != '`' {
      assert raw[x] == raw[..p][x];
    }
    FenceFromSkip(raw, 0, p);
    FenceAtStart(raw, p, body);
    FenceAtEnd(raw, p, body);
    FenceFromHere(raw, p, p + 8, p + 8 + |body|);
  }

  /** Where the parts of a fenced reply sit. */
  lemma FencedIsFenceAt(pre: string, body: string, post: string)
    requires '`' !in pre && BodyOk(body)
    ensures FenceAt(pre + Open + body + Close + post, |pre|, body)
  {
    var raw := pre + Open + body + Close + post;
    var p := |pre|;
    assert raw[..p] == pre;
    assert raw[p..p + 8] == Open;
    assert raw[p + 8..p + 8 + |body|] == body;
    assert raw[p + 8 + |body|..p + 12 + |body|] == Close;
  }

  /** A reply made of backtick-free text, a fenced `json` block whose body is trimmed and
      backtick-free, and anything after it yields that body. */
  lemma FencedBlock(pre: string, body: string, post: string)
    requires '`' !in pre && '`' !in body
    requires body != [] && !IsSpace(body[0]) && !IsSpace(body[|body| - 1])
    ensures Fenced(pre + Open + body + Close + post) == Some(body)
  {
    FencedIsFenceAt(pre, body, post);
    FenceAtBody(pre + Open + body + Close + post, |pre|, body);
  }

  /** When neither the whole reply nor a fenced body parses, the text from the first `[`
      to the last `]` is parsed. */
  lemma BracketFallback(pre: string, mid: string, post: string, parse: JsonParser)
    requires '[' !in pre && ']' !in post
    requires var raw := pre + ("[" + mid + "]") + post;
      parse(raw).Failure? && (Fenced(raw).None? || parse(Fenced(raw).value).Failure?)
    ensures ParseJsonLoose(pre + ("[" + mid + "]") + post, parse) == TryParse(parse, "[" + mid + "]")
  {
    var core := "[" + mid + "]";
    var raw := pre + core + post;
    var s := |pre|;
    var e := |pre| + |mid| + 1;
    assert raw[s..e + 1] == core;
    assert raw[s] == '[' && raw[e] == ']';
    forall x | 0 <= x < s ensures raw[x] != '[' {
      assert raw[x] == pre[x];
    }
    forall x | e < x < |raw| ensures raw[x] != ']' {
      assert raw[x] == post[x - e - 1];
    }
    IndexOfAt(raw, '[', s);
    LastIndexOfAt(raw, ']', e);
  }
}
