/** `rerankWithLLM` of lib/search.ts: asks a chat model to score the candidates and
    returns the best `finalK` by that score. The model is a parameter `ask` from the
    system and user prompts to the reply's content (None when the reply has none), or
    to the error the request throws; JSON.parse is a parameter too. */
module Rerank {
  import opened Js
  import opened Ranking
  import opened LooseJson

  /** Longest candidate text shown to the model in full. */
  const PreviewLimit: nat := 600

  /** The candidate text as shown in the prompt: cut to 600 characters and marked with
      an ellipsis when longer. */
  function Preview(text: string): (r: string)
    ensures |r| <= PreviewLimit + 1
    ensures |text| <= PreviewLimit ==> r == text
    ensures |text| > PreviewLimit ==> |r| == PreviewLimit + 1 && r[..PreviewLimit] == text[..PreviewLimit] && r[PreviewLimit] == '\U{2026}'
  {
    if |text| > PreviewLimit then text[..PreviewLimit] + "\U{2026}" else text
  }

  const SystemPrompt: string :=
    "You are a precise retrieval reranker. Score each candidate for how well it answers the query. "
    + "Return JSON ONLY as an array: [{\"n\":1,\"score\":9.2}, ...]. 0=irrelevant, 10=perfect."

  /** The prompt line of candidate number `n` (numbered from 1). */
  function CandidateLine(n: nat, c: EmbeddingItem): string
  {
    "[" + NatToString(n) + "] (" + c.file + ") " + Preview(c.text)
  }

  function CandidateLines(cs: seq<EmbeddingItem>): (r: seq<string>)
    ensures |r| == |cs|
  {
    seq(|cs|, i requires 0 <= i < |cs| => CandidateLine(i + 1, cs[i]))
  }

  function UserPrompt(query: string, cs: seq<EmbeddingItem>): string
  {
    "Query:\n" + query + "\n\nCandidates:\n" + Join(CandidateLines(cs), "\n---\n")
  }

  /** The user prompt holds the query and every candidate under its number. */
  lemma PromptShowsCandidates(query: string, cs: seq<EmbeddingItem>, i: nat)
    requires i < |cs|
    ensures Contains(UserPrompt(query, cs), query)
    ensures Contains(UserPrompt(query, cs), CandidateLine(i + 1, cs[i]))
  {
    var lines := Join(CandidateLines(cs), "\n---\n");
    ContainsSelf(query);
    ContainsRight("Query:\n", query, query);
    ContainsLeft("Query:\n" + query, "\n\nCandidates:\n" + lines, query);
    assert UserPrompt(query, cs) == ("Query:\n" + query) + ("\n\nCandidates:\n" + lines);
    JoinContains(CandidateLines(cs), "\n---\n", i);
    ContainsRight("Query:\n" + query + "\n\nCandidates:\n", lines, CandidateLine(i + 1, cs[i]));
  }

  // ---------------------------------------------------------------- scores

  /** `Number(item?.[key])` when finite; a missing member is `undefined`, which is NaN. */
  function Field(item: Json, key: string): Option<real>
  {
    match Member(item, key)
    case None => None
    case Some(v) => JsonNumber(v)
  }

  /** The `(n, score)` pair an array element contributes, when both are finite numbers. */
  function Entry(item: Json): Option<(real, real)>
  {
    var n := Field(item, "n");
    var s := Field(item, "score");
    if n.Some? && s.Some? then Some((n.value, s.value)) else None
  }

  /** What each element of the parsed array contributes. */
  function Entries(arr: seq<Json>): (es: seq<Option<(real, real)>>)
    ensures |es| == |arr|
  {
    seq(|arr|, i requires 0 <= i < |arr| => Entry(arr[i]))
  }

  /** `scores.set(n, s)` for an entry, nothing for a skipped element. */
  function Record(m: map<real, real>, e: Option<(real, real)>): map<real, real>
  {
    match e
    case None => m
    case Some(e) => m[e.0 := e.1]
  }

  /** The map after recording the entries in order: a later entry for the same number
      replaces an earlier one. */
  function Recorded(es: seq<Option<(real, real)>>): map<real, real>
  {
    if es == [] then map[] else Record(Recorded(es[..|es| - 1]), es[|es| - 1])
  }

  function ScoreMap(arr: seq<Json>): map<real, real>
  {
    Recorded(Entries(arr))
  }

  /** Entry `e` gives a score to number `n`. */
  predicate Names(e: Option<(real, real)>, n: real)
  {
    e.Some? && e.value.0 == n
  }

  lemma {:induction false} RecordedIff(es: seq<Option<(real, real)>>, n: real)
    ensures n in Recorded(es) <==> exists i :: 0 <= i < |es| && Names(es[i], n)
  {
    if es != [] {
      var init := es[..|es| - 1];
      var last := |es| - 1;
      RecordedIff(init, n);
      if n in Recorded(es) {
        if !Names(es[last], n) {
          assert n in Recorded(init);
          var i :| 0 <= i < |init| && Names(init[i], n);
          assert es[i] == init[i];
        }
      }
      if exists i :: 0 <= i < |es| && Names(es[i], n) {
        var i :| 0 <= i < |es| && Names(es[i], n);
        if i < last {
          assert init[i] == es[i];
        }
      }
    }
  }

  lemma {:induction false} RecordedLast(es: seq<Option<(real, real)>>, n: real)
    requires n in Recorded(es)
    ensures exists i ::
      && 0 <= i < |es| && es[i] == Some((n, Recorded(es)[n]))
      && (forall j :: i < j < |es| ==> !Names(es[j], n))
  {
    var init := es[..|es| - 1];
    var last := |es| - 1;
    if Names(es[last], n) {
      assert es[last] == Some((n, Recorded(es)[n]));
    } else {
      assert n in Recorded(init) && Recorded(es)[n] == Recorded(init)[n];
      RecordedLast(init, n);
      var i :| 0 <= i < |init| && init[i] == Some((n, Recorded(init)[n]))
        && (forall j :: i < j < |init| ==> !Names(init[j], n));
      assert es[i] == init[i];
      forall j | i < j < |es| ensures !Names(es[j], n) {
        if j < last { assert es[j] == init[j]; }
      }
    }
  }

  /** A number is scored exactly when some element of the array names it, and its score
      is the one the last element naming it gives. */
  lemma LastScore(arr: seq<Json>, n: real)
    ensures n in ScoreMap(arr) <==> exists i :: 0 <= i < |arr| && Names(Entry(arr[i]), n)
    ensures n in ScoreMap(arr) ==> exists i ::
      && 0 <= i < |arr| && Entry(arr[i]) == Some((n, ScoreMap(arr)[n]))
      && (forall j :: i < j < |arr| ==> !Names(Entry(arr[j]), n))
  {
    var es := Entries(arr);
    RecordedIff(es, n);
    if n in ScoreMap(arr) {
      RecordedLast(es, n);
      var i :| 0 <= i < |es| && es[i] == Some((n, Recorded(es)[n]))
        && (forall j :: i < j < |es| ==> !Names(es[j], n));
      assert Entry(arr[i]) == es[i];
      assert forall j :: i < j < |arr| ==> Entry(arr[j]) == es[j];
    }
    if exists i :: 0 <= i < |arr| && Names(Entry(arr[i]), n) {
      var i :| 0 <= i < |arr| && Names(Entry(arr[i]), n);
      assert es[i] == Entry(arr[i]);
    }
  }

  /** The loop over the parsed array that fills the score map. */
  method BuildScores(arr: seq<Json>) returns (scores: map<real, real>)
    ensures scores == ScoreMap(arr)
  {
    scores := map[];
    for i := 0 to |arr|
      invariant scores == Recorded(Entries(arr)[..i])
    {
      var n := Field(arr[i], "n");
      var s := Field(arr[i], "score");
      if n.Some? && s.Some? {
        scores := scores[n.value := s.value];
      }
      assert Entries(arr)[..i + 1][..i] == Entries(arr)[..i];
      assert scores == Record(Recorded(Entries(arr)[..i]), Entries(arr)[i]);
    }
    assert Entries(arr)[..|arr|] == Entries(arr);
  }

  /** The sort key of candidate `i` (from 0): the score of number `i + 1`, else 0. */
  function Keys(scores: map<real, real>, count: nat): (key: seq<real>)
    ensures |key| == count
  {
    seq(count, i requires 0 <= i < count =>
      if (i + 1) as real in scores then scores[(i + 1) as real] else 0.0)
  }

  // ---------------------------------------------------------------- reranking

  /** What `rerankWithLLM` resolves to, or the error it rejects with. */
  function Reranked(query: string, cs: seq<EmbeddingItem>, finalK: int,
                    ask: (string, string) -> Result<Option<string>, string>,
                    parse: JsonParser): Result<seq<EmbeddingItem>, string>
  {
    if |cs| <= finalK then Success(cs)
    else
      match ask(SystemPrompt, UserPrompt(query, cs))
      case Failure(e) => Failure(e)
      case Success(content) =>
        var raw := if content.Some? then content.value else "[]";
        match ParseJsonLoose(raw, parse)
        case Some(JArr(items)) => Success(TopByKey(cs, Keys(ScoreMap(items), |cs|), finalK))
        case _ => Success(Slice0(cs, finalK))
  }

  method RerankWithLLM(query: string, cs: seq<EmbeddingItem>, finalK: int,
                       ask: (string, string) -> Result<Option<string>, string>,
                       parse: JsonParser) returns (r: Result<seq<EmbeddingItem>, string>)
    ensures r == Reranked(query, cs, finalK, ask, parse)
  {
    if |cs| <= finalK {
      return Success(cs);
    }
    var resp := ask(SystemPrompt, UserPrompt(query, cs));
    if resp.Failure? {
      return Failure(resp.error);
    }
    var raw := if resp.value.Some? then resp.value.value else "[]";
    var arr := ParseJsonLoose(raw, parse);
    if !(arr.Some? && arr.value.JArr?) {
      return Success(Slice0(cs, finalK));
    }
    var scores := BuildScores(arr.value.elems);
    r := Success(TopByKey(cs, Keys(scores, |cs|), finalK));
  }

  /** No more candidates than `finalK`: they come back unchanged, and the chat model is
      not asked. */
  lemma RerankedUnchanged(query: string, cs: seq<EmbeddingItem>, finalK: int,
                          ask: (string, string) -> Result<Option<string>, string>, parse: JsonParser)
    requires |cs| <= finalK
    ensures Reranked(query, cs, finalK, ask, parse) == Success(cs)
  {
  }

  /** With a non-negative `finalK` a successful rerank returns `min(finalK, n)`
      candidates, taken from the input without repetition. */
  lemma RerankedShape(query: string, cs: seq<EmbeddingItem>, finalK: int,
                      ask: (string, string) -> Result<Option<string>, string>, parse: JsonParser)
    requires finalK >= 0 && Reranked(query, cs, finalK, ask, parse).Success?
    ensures var r := Reranked(query, cs, finalK, ask, parse).value;
      |r| == (if finalK < |cs| then finalK else |cs|) && multiset(r) <= multiset(cs)
  {
    if |cs| > finalK {
      var raw := if ask(SystemPrompt, UserPrompt(query, cs)).value.Some?
        then ask(SystemPrompt, UserPrompt(query, cs)).value.value else "[]";
      match ParseJsonLoose(raw, parse)
      case Some(JArr(items)) =>
        TopByKeyShape(cs, Keys(ScoreMap(items), |cs|), finalK);
      case _ =>
        PrefixSubBag(cs, finalK);
    }
  }

  /** When the reply reads as a JSON array, the candidates come back best score first
      (a candidate the model did not score counts as 0), equal scores in input order,
      and no candidate left out scores higher than one returned. */
  lemma RerankedByScore(query: string, cs: seq<EmbeddingItem>, finalK: int,
                        ask: (string, string) -> Result<Option<string>, string>, parse: JsonParser,
                        content: Option<string>, items: seq<Json>)
    requires |cs| > finalK >= 0
    requires ask(SystemPrompt, UserPrompt(query, cs)) == Success(content)
    requires ParseJsonLoose(if content.Some? then content.value else "[]", parse) == Some(JArr(items))
    ensures var key := Keys(ScoreMap(items), |cs|); var o := Order(key);
      var r := Reranked(query, cs, finalK, ask, parse);
      && r == Success(TopByKey(cs, key, finalK))
      && |r.value| == finalK
      && (forall i :: 0 <= i < finalK ==> r.value[i] == cs[o[i]])
      && (forall i, j :: 0 <= i < j < finalK ==> key[o[i]] > key[o[j]] || (key[o[i]] == key[o[j]] && o[i] < o[j]))
      && (forall p :: 0 <= p < |cs| && p !in o[..finalK] ==>
            forall i :: 0 <= i < finalK ==> key[p] < key[o[i]] || (key[p] == key[o[i]] && o[i] < p))
  {
    var key := Keys(ScoreMap(items), |cs|);
    TopByKeyShape(cs, key, finalK);
    forall p | 0 <= p < |cs| && p !in Order(key)[..finalK]
      ensures forall i :: 0 <= i < finalK ==> key[p] < key[Order(key)[i]] || (key[p] == key[Order(key)[i]] && Order(key)[i] < p)
    {
      TopByKeyIsTop(key, finalK, p);
    }
  }

  /** When the reply does not read as a JSON array, the first `finalK` candidates come
      back in their input order. */
  lemma RerankedFallback(query: string, cs: seq<EmbeddingItem>, finalK: int,
                         ask: (string, string) -> Result<Option<string>, string>, parse: JsonParser,
                         content: Option<string>)
    requires |cs| > finalK
    requires ask(SystemPrompt, UserPrompt(query, cs)) == Success(content)
    requires !ParseJsonLoose(if content.Some? then content.value else "[]", parse).Some?
      || !ParseJsonLoose(if content.Some? then content.value else "[]", parse).value.JArr?
    ensures Reranked(query, cs, finalK, ask, parse) == Success(Slice0(cs, finalK))
  {
  }
  /** An array reply that scores no candidate (the empty array, say, which is also what a
      reply without content reads as) leaves every key at 0, so the first `finalK`
      candidates come back in their input order, as in the fallback. */
  lemma RerankedNoScores(query: string, cs: seq<EmbeddingItem>, finalK: int,
                         ask: (string, string) -> Result<Option<string>, string>, parse: JsonParser,
                         content: Option<string>, items: seq<Json>)
    requires |cs| > finalK
    requires ask(SystemPrompt, UserPrompt(query, cs)) == Success(content)
    requires ParseJsonLoose(if content.Some? then content.value else "[]", parse) == Some(JArr(items))
    requires ScoreMap(items) == map[]
    ensures Reranked(query, cs, finalK, ask, parse) == Success(Slice0(cs, finalK))
  {
    var key := Keys(ScoreMap(items), |cs|);
    EqualKeysKeepOrder(cs, key, finalK);
  }
}
