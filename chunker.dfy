/** `sentenceChunk` of scripts/embed.ts: paragraphs are cut at runs of two or more
    newlines; within a paragraph, sentences are packed into a buffer while the joined
    buffer plus a space plus the next sentence fits in `targetChars`; when it does not,
    the buffer is flushed as a chunk and its last `overlapSentences` sentences are kept,
    without advancing; a sentence that does not fit beside an empty buffer is emitted
    alone.

    The source loop need not terminate: when a flush keeps the whole buffer (it holds
    no more than `overlapSentences` sentences) the loop state is unchanged and the
    same turn repeats forever. The model reports that case as `Diverges`. */
module Chunker {
  import opened Js
  import Sentences

  // ---------------------------------------------------------------- paragraphs

  /** End of the run of newlines starting at `p`. */
  function NewlineRunEnd(s: string, p: nat): (e: nat)
    requires p <= |s|
    ensures p <= e <= |s| && (e == |s| || s[e] != '\n')
    ensures forall q :: p <= q < e ==> s[q] == '\n'
    decreases |s| - p
  {
    if p < |s| && s[p] == '\n' then NewlineRunEnd(s, p + 1) else p
  }

  /** `s.split(/\n{2,}/g)` scanning from `p`, the current part having started at `start`. */
  function SplitParasFrom(s: string, start: nat, p: nat): seq<string>
    requires start <= p <= |s|
    decreases |s| - p
  {
    if p == |s| then [s[start..]]
    else if p + 1 < |s| && s[p] == '\n' && s[p + 1] == '\n' then
      var e := NewlineRunEnd(s, p);
      [s[start..p]] + SplitParasFrom(s, e, e)
    else SplitParasFrom(s, start, p + 1)
  }

  /** `text.split(/\n{2,}/g).map(p => p.trim()).filter(Boolean)`. */
  function Paragraphs(text: string): seq<string>
  {
    Sentences.NonEmpty(Sentences.TrimAll(SplitParasFrom(text, 0, 0)))
  }

  // ---------------------------------------------------------------- one paragraph

  /** Loop state of one paragraph: the sentence buffer and the next sentence index. */
  datatype State = State(buf: seq<string>, i: nat)

  /** Result of chunking: the chunks, or the report that the source loops forever. */
  datatype Chunks = Done(chunks: seq<string>) | Diverges

  /** `buf.slice(Math.max(0, buf.length - overlapSentences))`. */
  function Keep(buf: seq<string>, overlap: int): (r: seq<string>)
    ensures |r| <= |buf| && r == buf[|buf| - |r|..]
    ensures overlap >= 0 ==> |r| == if overlap < |buf| then overlap else |buf|
    ensures overlap <= 0 ==> r == []
  {
    var from := if |buf| - overlap < 0 then 0 else |buf| - overlap;
    if from > |buf| then [] else buf[from..]
  }

  /** Whether the next sentence fits beside the buffer (line 47). */
  predicate Fits(buf: seq<string>, sent: string, target: int)
  {
    |Join(buf, " ")| + |sent| + 1 <= target
  }

  /** One turn of the `while` loop: the next state and the chunk it pushes, if any. */
  function Step(sents: seq<string>, target: int, overlap: int, fix: bool, s: State): (r: (State, Option<string>))
    requires s.i < |sents|
    ensures r.0.i <= |sents|
    ensures r.0.i == s.i + 1 || (r.0.i == s.i && |r.0.buf| <= |s.buf| && (|r.0.buf| == |s.buf| ==> r.0 == s))
  {
    if Fits(s.buf, sents[s.i], target) then (State(s.buf + [sents[s.i]], s.i + 1), None)
    else if |s.buf| > 0 then
      var kept := Keep(s.buf, overlap);
      (State(if fix && kept == s.buf then [] else kept, s.i), Some(Join(s.buf, " ")))
    else (State(s.buf, s.i + 1), Some(sents[s.i]))
  }

  /** The chunk a turn pushes, as a list. */
  function Emitted(out: Option<string>): seq<string>
  {
    if out.Some? then [out.value] else []
  }

  /** The chunks the loop pushes from state `s` on, including the final flush of line 62. */
  function Run(sents: seq<string>, target: int, overlap: int, fix: bool, s: State): Chunks
    requires s.i <= |sents|
    decreases |sents| - s.i, |s.buf|
  {
    if s.i == |sents| then Done(if |s.buf| > 0 then [Join(s.buf, " ")] else [])
    else
      var r := Step(sents, target, overlap, fix, s);
      if r.0 == s then Diverges
      else Glue(Emitted(r.1), Run(sents, target, overlap, fix, r.0))
  }

  function ChunkParagraph(sents: seq<string>, target: int, overlap: int, fix: bool): Chunks
  {
    Run(sents, target, overlap, fix, State([], 0))
  }

  // ---------------------------------------------------------------- whole text

  /** Chunks `prefix` already pushed, followed by `rest`. */
  function Glue(prefix: seq<string>, rest: Chunks): Chunks
  {
    match rest
    case Diverges => Diverges
    case Done(cs) => Done(prefix + cs)
  }

  /** The paragraphs are chunked one after another; a paragraph that diverges stops all. */
  function ChunkParas(paras: seq<string>, target: int, overlap: int, fix: bool): Chunks
  {
    if paras == [] then Done([])
    else Then(ChunkParagraph(Sentences.SplitSentences(paras[0]), target, overlap, fix),
              ChunkParas(paras[1..], target, overlap, fix))
  }

  function ChunkText(text: string, target: int, overlap: int, fix: bool): Chunks
  {
    ChunkParas(Paragraphs(text), target, overlap, fix)
  }

  /** The source's `sentenceChunk`, paragraph by paragraph; it stops with `Diverges`
      at the turn where the source would repeat forever. */
  method SentenceChunk(text: string, targetChars: int, overlapSentences: int) returns (r: Chunks)
    ensures r == ChunkText(text, targetChars, overlapSentences, false)
  {
    var paras := Paragraphs(text);
    var chunks: seq<string> := [];
    assert paras[0..] == paras;
    for k := 0 to |paras|
      invariant ChunkParas(paras, targetChars, overlapSentences, false)
                == Glue(chunks, ChunkParas(paras[k..], targetChars, overlapSentences, false))
    {
      var done := ChunkSentences(Sentences.SplitSentences(paras[k]), targetChars, overlapSentences);
      ParasStep(paras, k, chunks, done, targetChars, overlapSentences, false);
      if done.Diverges? {
        return Diverges;
      }
      chunks := chunks + done.chunks;
    }
    assert paras[|paras|..] == [];
    r := Done(chunks);
  }

  /** The `while` loop of lines 44-62 over the sentences of one paragraph. */
  method ChunkSentences(sents: seq<string>, targetChars: int, overlapSentences: int) returns (r: Chunks)
    ensures r == ChunkParagraph(sents, targetChars, overlapSentences, false)
  {
    var chunks: seq<string> := [];
    var buf: seq<string> := [];
    var i := 0;
    while i < |sents|
      invariant i <= |sents|
      invariant ChunkParagraph(sents, targetChars, overlapSentences, false)
                == Glue(chunks, Run(sents, targetChars, overlapSentences, false, State(buf, i)))
      decreases |sents| - i, |buf|
    {
      ghost var s := State(buf, i);
      ghost var before := chunks;
      ghost var st := Step(sents, targetChars, overlapSentences, false, s);
      if |Join(buf, " ")| + |sents[i]| + 1 <= targetChars {
        buf := buf + [sents[i]];
        i := i + 1;
        assert st == (State(buf, i), None);
      } else if |buf| > 0 {
        chunks := chunks + [Join(buf, " ")];
        var kept := Keep(buf, overlapSentences);
        assert st == (State(kept, i), Some(Join(buf, " ")));
        if kept == buf {
          // the source keeps looping with this very state
          StallDiverges(sents, targetChars, overlapSentences, false, s);
          return Diverges;
        }
        buf := kept;
      } else {
        chunks := chunks + [sents[i]];
        i := i + 1;
        assert st == (State(buf, i), Some(sents[i - 1]));
      }
      assert chunks == before + Emitted(st.1) && State(buf, i) == st.0;
      StepGlue(before, sents, targetChars, overlapSentences, false, s);
    }
    if |buf| > 0 {
      chunks := chunks + [Join(buf, " ")];
    }
    r := Done(chunks);
  }

  /** Chunks of one paragraph followed by those of the rest. */
  function Then(first: Chunks, rest: Chunks): Chunks
  {
    match first
    case Diverges => Diverges
    case Done(cs) => Glue(cs, rest)
  }

  lemma GlueGlue(a: seq<string>, b: seq<string>, c: Chunks)
    ensures Glue(a, Glue(b, c)) == Glue(a + b, c)
  {
    match c
    case Diverges =>
    case Done(cs) => assert a + (b + cs) == a + b + cs;
  }

  /** One turn that changes the state moves its chunk from the run to the pushed prefix. */
  lemma StepGlue(prefix: seq<string>, sents: seq<string>, target: int, overlap: int, fix: bool, s: State)
    requires s.i < |sents|
    requires Step(sents, target, overlap, fix, s).0 != s
    ensures Glue(prefix, Run(sents, target, overlap, fix, s))
            == Glue(prefix + Emitted(Step(sents, target, overlap, fix, s).1),
                    Run(sents, target, overlap, fix, Step(sents, target, overlap, fix, s).0))
  {
    var st := Step(sents, target, overlap, fix, s);
    GlueGlue(prefix, Emitted(st.1), Run(sents, target, overlap, fix, st.0));
  }

  /** A turn that leaves the state unchanged repeats forever. */
  lemma StallDiverges(sents: seq<string>, target: int, overlap: int, fix: bool, s: State)
    requires s.i < |sents| && Step(sents, target, overlap, fix, s).0 == s
    ensures Run(sents, target, overlap, fix, s) == Diverges
  {
  }

  /** Chunking paragraph `k` either stops everything or moves its chunks to the prefix. */
  lemma ParasStep(paras: seq<string>, k: nat, prefix: seq<string>, done: Chunks,
                  target: int, overlap: int, fix: bool)
    requires k < |paras|
    requires done == ChunkParagraph(Sentences.SplitSentences(paras[k]), target, overlap, fix)
    ensures done.Diverges? ==> Glue(prefix, ChunkParas(paras[k..], target, overlap, fix)) == Diverges
    ensures done.Done? ==> Glue(prefix, ChunkParas(paras[k..], target, overlap, fix))
                           == Glue(prefix + done.chunks, ChunkParas(paras[k + 1..], target, overlap, fix))
  {
    assert paras[k..][1..] == paras[k + 1..];
    if done.Done? {
      match ChunkParas(paras[k + 1..], target, overlap, fix)
      case Diverges =>
      case Done(rs) => assert prefix + (done.chunks + rs) == prefix + done.chunks + rs;
    }
  }

  // ---------------------------------------------------------------- properties

  /** A chunk of `sents` is the joined text of a non-empty run of consecutive sentences,
      no longer than `target` unless the run is a single sentence. */
  ghost predicate GoodChunk(c: string, sents: seq<string>, target: int)
  {
    exists a, b :: 0 <= a < b <= |sents| && c == Join(sents[a..b], " ") && (|c| <= target || b == a + 1)
  }

  /** The buffer is the run of sentences from `j` to just before `s.i`, and its joined
      text fits. */
  ghost predicate BufferOk(sents: seq<string>, target: int, s: State, j: nat)
  {
    j <= s.i <= |sents| && s.buf == sents[j..s.i] && (s.buf == [] || |Join(s.buf, " ")| <= target)
  }

  /** Appending the next sentence keeps the buffer a fitting run (lines 47-49). */
  lemma PushBufferOk(sents: seq<string>, target: int, j: nat, i: nat)
    requires j <= i < |sents|
    requires sents[j..i] == [] || |Join(sents[j..i], " ")| <= target
    requires Fits(sents[j..i], sents[i], target)
    ensures |Join(sents[j..i + 1], " ")| <= target
  {
    assert sents[j..i + 1] == sents[j..i] + [sents[i]];
    JoinSnocLength(sents[j..i], sents[i], " ");
  }

  /** Keeping the last `n` sentences of the buffer keeps it a fitting run (line 54). */
  lemma KeepBufferOk(sents: seq<string>, target: int, j: nat, i: nat, kept: seq<string>)
    requires j <= i <= |sents| && |Join(sents[j..i], " ")| <= target
    requires |kept| <= i - j && kept == sents[j..i][i - j - |kept|..]
    ensures BufferOk(sents, target, State(kept, i), i - |kept|)
  {
    assert kept == sents[i - |kept|..i];
    JoinSuffixLength(sents[j..i], i - j - |kept|, " ");
  }

  /** Every turn keeps the buffer a fitting run of the sentences just read. */
  lemma StepBufferOk(sents: seq<string>, target: int, overlap: int, fix: bool, s: State, j: nat)
    returns (j': nat)
    requires BufferOk(sents, target, s, j) && s.i < |sents|
    ensures BufferOk(sents, target, Step(sents, target, overlap, fix, s).0, j')
  {
    if Fits(s.buf, sents[s.i], target) {
      PushBufferOk(sents, target, j, s.i);
      j' := j;
      assert s.buf + [sents[s.i]] == sents[j..s.i + 1];
    } else if |s.buf| > 0 {
      var kept := Keep(s.buf, overlap);
      var next := if fix && kept == s.buf then [] else kept;
      KeepBufferOk(sents, target, j, s.i, next);
      j' := s.i - |next|;
    } else {
      j' := s.i + 1;
      assert s.buf == sents[s.i + 1..s.i + 1];
    }
  }

  /** What one turn pushes is a good chunk. */
  lemma StepChunkGood(sents: seq<string>, target: int, overlap: int, fix: bool, s: State, j: nat)
    requires BufferOk(sents, target, s, j) && s.i < |sents|
    ensures forall c :: c in Emitted(Step(sents, target, overlap, fix, s).1) ==> GoodChunk(c, sents, target)
  {
    if !Fits(s.buf, sents[s.i], target) {
      if |s.buf| > 0 {
        assert GoodChunk(Join(sents[j..s.i], " "), sents, target);
      } else {
        assert Join(sents[s.i..s.i + 1], " ") == sents[s.i];
        assert GoodChunk(sents[s.i], sents, target);
      }
    }
  }

  /** From a state whose buffer fits, every chunk pushed is good. */
  lemma {:induction false} RunChunksGood(sents: seq<string>, target: int, overlap: int, fix: bool, s: State, j: nat)
    requires BufferOk(sents, target, s, j)
    ensures Run(sents, target, overlap, fix, s).Done? ==>
      forall c :: c in Run(sents, target, overlap, fix, s).chunks ==> GoodChunk(c, sents, target)
    decreases |sents| - s.i, |s.buf|
  {
    if s.i == |sents| {
      if |s.buf| > 0 {
        assert GoodChunk(Join(sents[j..s.i], " "), sents, target);
      }
    } else {
      var r := Step(sents, target, overlap, fix, s);
      if r.0 != s {
        var j' := StepBufferOk(sents, target, overlap, fix, s, j);
        StepChunkGood(sents, target, overlap, fix, s, j);
        RunChunksGood(sents, target, overlap, fix, r.0, j');
      }
    }
  }

  /** No chunk of a paragraph is longer than `target`, except a single sentence that is
      longer on its own; every chunk is the joined text of consecutive sentences. */
  lemma ParagraphChunksGood(sents: seq<string>, target: int, overlap: int, fix: bool)
    ensures ChunkParagraph(sents, target, overlap, fix).Done? ==>
      forall c :: c in ChunkParagraph(sents, target, overlap, fix).chunks ==> GoodChunk(c, sents, target)
  {
    assert sents[0..0] == [];
    RunChunksGood(sents, target, overlap, fix, State([], 0), 0);
  }

  /** The loop ends when no overlap is kept, or when a stalled flush empties the buffer. */
  lemma {:induction false} RunTerminates(sents: seq<string>, target: int, overlap: int, fix: bool, s: State)
    requires s.i <= |sents| && (fix || overlap <= 0)
    ensures Run(sents, target, overlap, fix, s).Done?
    decreases |sents| - s.i, |s.buf|
  {
    if s.i < |sents| {
      var r := Step(sents, target, overlap, fix, s);
      if !Fits(s.buf, sents[s.i], target) && |s.buf| > 0 {
        assert r.0.buf != s.buf;
      }
      RunTerminates(sents, target, overlap, fix, r.0);
    }
  }

  /** A flush that keeps the whole buffer leaves the loop state as it was, so the source
      repeats that turn forever: this happens exactly when a sentence does not fit beside
      a buffer of no more than `overlap` sentences. */
  lemma StallIff(sents: seq<string>, target: int, overlap: int, s: State)
    requires s.i < |sents|
    ensures Step(sents, target, overlap, false, s).0 == s
            <==> !Fits(s.buf, sents[s.i], target) && 0 < |s.buf| <= overlap
  {
  }

  /** With the defaults used by the embedding script (900 characters, one sentence of
      overlap), a 10-character sentence followed by an 895-character one never ends. */
  lemma StallWitness(a: string, b: string)
    requires |a| == 10 && |b| == 895
    ensures ChunkParagraph([a, b], 900, 1, false) == Diverges
  {
    var sents := [a, b];
    var s1 := State([a], 1);
    assert Step(sents, 900, 1, false, State([], 0)).0 == s1;
    assert Join([a], " ") == a;
    assert Step(sents, 900, 1, false, s1).0 == s1;
    assert Run(sents, 900, 1, false, s1) == Diverges;
  }

  /** A whole text chunks paragraph by paragraph: every chunk is good for the sentences
      of one paragraph, so no chunk spans a paragraph break. */
  lemma {:induction false} ParasChunksGood(paras: seq<string>, target: int, overlap: int, fix: bool)
    ensures ChunkParas(paras, target, overlap, fix).Done? ==>
      forall c :: c in ChunkParas(paras, target, overlap, fix).chunks ==>
        exists k :: 0 <= k < |paras| && GoodChunk(c, Sentences.SplitSentences(paras[k]), target)
  {
    if paras != [] {
      var first := ChunkParagraph(Sentences.SplitSentences(paras[0]), target, overlap, fix);
      var rest := ChunkParas(paras[1..], target, overlap, fix);
      ParagraphChunksGood(Sentences.SplitSentences(paras[0]), target, overlap, fix);
      ParasChunksGood(paras[1..], target, overlap, fix);
      if first.Done? && rest.Done? {
        forall c | c in first.chunks + rest.chunks
          ensures exists k :: 0 <= k < |paras| && GoodChunk(c, Sentences.SplitSentences(paras[k]), target)
        {
          if c in first.chunks {
            assert GoodChunk(c, Sentences.SplitSentences(paras[0]), target);
          } else {
            var k :| 0 <= k < |paras[1..]| && GoodChunk(c, Sentences.SplitSentences(paras[1..][k]), target);
            assert paras[1..][k] == paras[k + 1];
          }
        }
      }
    }
  }

  /** No chunk of a text is empty: each joins at least one sentence, and sentences are
      never empty. */
  lemma ChunksNonEmpty(text: string, target: int, overlap: int, fix: bool)
    ensures ChunkText(text, target, overlap, fix).Done? ==>
      forall c :: c in ChunkText(text, target, overlap, fix).chunks ==> c != []
  {
    var paras := Paragraphs(text);
    ParasChunksGood(paras, target, overlap, fix);
    if ChunkText(text, target, overlap, fix).Done? {
      forall c | c in ChunkText(text, target, overlap, fix).chunks
        ensures c != []
      {
        var k :| 0 <= k < |paras| && GoodChunk(c, Sentences.SplitSentences(paras[k]), target);
        Sentences.SentencesWellFormed(paras[k]);
        GoodChunkNonEmpty(c, Sentences.SplitSentences(paras[k]), target);
      }
    }
  }

  /** A good chunk of non-empty sentences is not empty. */
  lemma GoodChunkNonEmpty(c: string, sents: seq<string>, target: int)
    requires GoodChunk(c, sents, target)
    requires forall s :: s in sents ==> s != []
    ensures c != []
  {
    var a, b :| 0 <= a < b <= |sents| && c == Join(sents[a..b], " ") && (|c| <= target || b == a + 1);
    assert sents[a..b][0] == sents[a] && sents[a] in sents;
    JoinNonEmpty(sents[a..b], " ");
  }

  /** Where the loop as written ends, the corrected loop ends with the same chunks: the
      two differ only at a turn that leaves the state unchanged. */
  lemma {:induction false} RunAgree(sents: seq<string>, target: int, overlap: int, s: State)
    requires s.i <= |sents|
    ensures Run(sents, target, overlap, false, s).Done? ==>
      Run(sents, target, overlap, true, s) == Run(sents, target, overlap, false, s)
    decreases |sents| - s.i, |s.buf|
  {
    if s.i < |sents| && Run(sents, target, overlap, false, s).Done? {
      var r := Step(sents, target, overlap, false, s);
      assert r.0 != s;
      assert Step(sents, target, overlap, true, s) == r;
      RunAgree(sents, target, overlap, r.0);
    }
  }

  /** The same agreement for a whole list of paragraphs. */
  lemma {:induction false} ParasAgree(paras: seq<string>, target: int, overlap: int)
    ensures ChunkParas(paras, target, overlap, false).Done? ==>
      ChunkParas(paras, target, overlap, true) == ChunkParas(paras, target, overlap, false)
  {
    if paras != [] && ChunkParas(paras, target, overlap, false).Done? {
      RunAgree(Sentences.SplitSentences(paras[0]), target, overlap, State([], 0));
      ParasAgree(paras[1..], target, overlap);
    }
  }

  /** Where `sentenceChunk` as written ends, the corrected chunker returns its chunks. */
  lemma TextAgree(text: string, target: int, overlap: int)
    ensures ChunkText(text, target, overlap, false).Done? ==>
      ChunkText(text, target, overlap, true) == ChunkText(text, target, overlap, false)
  {
    ParasAgree(Paragraphs(text), target, overlap);
  }

  /** The corrected loop, which drops the overlap when keeping it would not shrink the
      buffer, always ends on every text. */
  lemma FixedNeverDiverges(text: string, target: int, overlap: int)
    ensures ChunkText(text, target, overlap, true).Done?
  {
    FixedParasDone(Paragraphs(text), target, overlap);
  }

  lemma {:induction false} FixedParasDone(paras: seq<string>, target: int, overlap: int)
    ensures ChunkParas(paras, target, overlap, true).Done?
  {
    if paras != [] {
      RunTerminates(Sentences.SplitSentences(paras[0]), target, overlap, true, State([], 0));
      FixedParasDone(paras[1..], target, overlap);
    }
  }

  /** Without overlap the source loop always ends. */
  lemma NoOverlapNeverDiverges(text: string, target: int, overlap: int)
    requires overlap <= 0
    ensures ChunkText(text, target, overlap, false).Done?
  {
    NoOverlapParasDone(Paragraphs(text), target, overlap);
  }

  lemma {:induction false} NoOverlapParasDone(paras: seq<string>, target: int, overlap: int)
    requires overlap <= 0
    ensures ChunkParas(paras, target, overlap, false).Done?
  {
    if paras != [] {
      RunTerminates(Sentences.SplitSentences(paras[0]), target, overlap, false, State([], 0));
      NoOverlapParasDone(paras[1..], target, overlap);
    }
  }
}
