/** The driver of scripts/embed.ts: it loads `.env.local`, checks the API key, picks
    the backend, lists the Markdown files of `data/`, chunks each one, embeds every
    chunk as a row `file#n`, and hands the rows to pgvector or to `embeddings.json`.

    The directory listing, the file contents and the embedding service are parameters;
    the rows are chunked with the corrected chunker, which always terminates. */
module EmbedMain {
  import opened Js
  import Chunker
  import EnvFile
  import opened ChunkStore

  // ---------------------------------------------------------------- file discovery

  /** A file name the listing keeps: it ends in `.md` and is not `readme.md`, ignoring
      the case of ASCII letters. */
  predicate IsMarkdown(name: string)
  {
    var lower := Lower(name);
    lower != "readme.md" && EndsWith(lower, ".md")
  }

  function MarkdownFiles(names: seq<string>): seq<string>
  {
    if names == [] then []
    else (if IsMarkdown(names[0]) then [names[0]] else []) + MarkdownFiles(names[1..])
  }

  /** The listing keeps exactly the Markdown names, in directory order. */
  lemma {:induction false} MarkdownFilesMembers(names: seq<string>)
    ensures forall n :: n in MarkdownFiles(names) <==> n in names && IsMarkdown(n)
    ensures |MarkdownFiles(names)| <= |names|
  {
    if names != [] {
      MarkdownFilesMembers(names[1..]);
      assert names == [names[0]] + names[1..];
    }
  }

  lemma {:induction false} MarkdownFilesDistinct(names: seq<string>)
    requires Distinct(names)
    ensures Distinct(MarkdownFiles(names))
  {
    if names != [] {
      MarkdownFilesDistinct(names[1..]);
      MarkdownFilesMembers(names[1..]);
      assert names[0] !in names[1..];
    }
  }

  predicate Distinct<T(==)>(s: seq<T>)
  {
    forall i, j :: 0 <= i < j < |s| ==> s[i] != s[j]
  }

  /** `listMarkdownFiles`: the loop over the directory entries. */
  method ListMarkdownFiles(names: seq<string>) returns (out: seq<string>)
    ensures out == MarkdownFiles(names)
  {
    out := [];
    var k := 0;
    while k < |names|
      invariant k <= |names|
      invariant MarkdownFiles(names) == out + MarkdownFiles(names[k..])
    {
      assert names[k..][1..] == names[k + 1..];
      var lower := Lower(names[k]);
      if lower != "readme.md" && EndsWith(lower, ".md") {
        out := out + [names[k]];
      }
      k := k + 1;
    }
    assert names[k..] == [];
  }

  // ---------------------------------------------------------------- rows

  /** The id of the `n`-th chunk of a file, counted from 1. */
  function ChunkId(file: string, n: nat): string
  {
    file + "#" + NatToString(n)
  }

  lemma LastHash(file: string, digits: string)
    requires '#' !in digits
    ensures LastIndexOf(file + "#" + digits, '#') == |file|
  {
    var s := file + "#" + digits;
    var r := LastIndexOf(s, '#');
    assert s[|file|] == '#';
  }

  /** The digits after the last `#` give back the chunk number, and the text before it
      the file: two chunks share an id only when they are the same chunk of one file. */
  lemma ChunkIdInjective(f1: string, n1: nat, f2: string, n2: nat)
    requires ChunkId(f1, n1) == ChunkId(f2, n2)
    ensures f1 == f2 && n1 == n2
  {
    var d1, d2 := NatToString(n1), NatToString(n2);
    assert '#' !in d1 && '#' !in d2;
    LastHash(f1, d1);
    LastHash(f2, d2);
    var s := ChunkId(f1, n1);
    assert f1 == s[..|f1|] && f2 == s[..|f2|];
    assert d1 == s[|f1| + 1..] && d2 == s[|f2| + 1..];
    DigitsOfNat(n1);
    DigitsOfNat(n2);
  }

  /** The rows of one file, its `k`-th chunk carrying the id `file#(k + 1)`. */
  function ChunkRows(file: string, chunks: seq<string>, embed: string -> seq<real>): (r: seq<Row>)
    ensures |r| == |chunks|
  {
    seq(|chunks|, k requires 0 <= k < |chunks| => Row(ChunkId(file, k + 1), file, chunks[k], embed(chunks[k])))
  }

  /** Chunks of a file's text, with the arguments the driver passes (900, 1). The
      corrected chunker is used; wherever `sentenceChunk` as written ends, it returns
      the same chunks, and no chunk is empty. */
  function FileChunks(raw: string): (r: seq<string>)
    ensures Chunker.ChunkText(raw, 900, 1, false).Done? ==> r == Chunker.ChunkText(raw, 900, 1, false).chunks
    ensures forall c :: c in r ==> c != []
  {
    Chunker.FixedNeverDiverges(raw, 900, 1);
    Chunker.TextAgree(raw, 900, 1);
    Chunker.ChunksNonEmpty(raw, 900, 1, true);
    Chunker.ChunkText(raw, 900, 1, true).chunks
  }

  /** The rows of all files in order, or the first file that cannot be read. */
  function RowsOf(files: seq<string>, read: string -> FileRead, embed: string -> seq<real>): Result<seq<Row>, string>
  {
    if files == [] then Success([])
    else match read(files[0])
      case Contents(raw) =>
        (match RowsOf(files[1..], read, embed)
         case Success(rest) => Success(ChunkRows(files[0], FileChunks(raw), embed) + rest)
         case Failure(f) => Failure(f))
      case _ => Failure(files[0])
  }

  /** Every row belongs to a listed file and carries the id of one of its chunks. */
  lemma {:induction false} RowsOfFiles(files: seq<string>, read: string -> FileRead, embed: string -> seq<real>)
    ensures RowsOf(files, read, embed).Success? ==>
      forall r :: r in RowsOf(files, read, embed).value ==>
        r.file in files && exists n :: 1 <= n <= |RowsOf(files, read, embed).value| && r.id == ChunkId(r.file, n)
  {
    if files != [] && read(files[0]).Contents? {
      RowsOfFiles(files[1..], read, embed);
      var rows := RowsOf(files, read, embed);
      if rows.Success? {
        var first := ChunkRows(files[0], FileChunks(read(files[0]).text), embed);
        var rest := RowsOf(files[1..], read, embed).value;
        assert rows.value == first + rest;
        forall r | r in rows.value
          ensures r.file in files && exists n :: 1 <= n <= |rows.value| && r.id == ChunkId(r.file, n)
        {
          if r in first {
            var k :| 0 <= k < |first| && first[k] == r;
            assert r.id == ChunkId(r.file, k + 1);
          } else {
            assert r in rest;
            var n :| 1 <= n <= |rest| && r.id == ChunkId(r.file, n);
          }
        }
      }
    }
  }

  /** The rows of one file have distinct ids. */
  lemma ChunkRowsDistinct(file: string, chunks: seq<string>, embed: string -> seq<real>)
    ensures DistinctIds(ChunkRows(file, chunks, embed))
  {
    var rows := ChunkRows(file, chunks, embed);
    forall i, j | 0 <= i < j < |rows| ensures rows[i].id != rows[j].id {
      if rows[i].id == rows[j].id { ChunkIdInjective(file, i + 1, file, j + 1); }
    }
  }

  /** Rows of different files never share an id. */
  lemma DisjointIds(file: string, first: seq<Row>, rest: seq<Row>)
    requires forall r :: r in first ==> exists n :: 1 <= n && r.id == ChunkId(file, n)
    requires forall r :: r in rest ==> r.file != file && exists n :: 1 <= n && r.id == ChunkId(r.file, n)
    ensures forall a, b :: a in first && b in rest ==> a.id != b.id
  {
    forall a, b | a in first && b in rest ensures a.id != b.id {
      var m :| 1 <= m && a.id == ChunkId(file, m);
      var n :| 1 <= n && b.id == ChunkId(b.file, n);
      if a.id == b.id { ChunkIdInjective(file, m, b.file, n); }
    }
  }

  lemma AppendDistinct(first: seq<Row>, rest: seq<Row>)
    requires DistinctIds(first) && DistinctIds(rest)
    requires forall a, b :: a in first && b in rest ==> a.id != b.id
    ensures DistinctIds(first + rest)
  {
    var all := first + rest;
    forall i, j | 0 <= i < j < |all| ensures all[i].id != all[j].id {
      if j < |first| {
        assert all[i] == first[i] && all[j] == first[j];
      } else if i < |first| {
        assert all[i] in first && all[j] in rest;
      } else {
        assert all[i] == rest[i - |first|] && all[j] == rest[j - |first|];
      }
    }
  }

  /** Row ids are unique when the file names are. */
  lemma {:induction false} RowIdsDistinct(files: seq<string>, read: string -> FileRead, embed: string -> seq<real>)
    requires Distinct(files)
    ensures RowsOf(files, read, embed).Success? ==> DistinctIds(RowsOf(files, read, embed).value)
  {
    if files != [] && read(files[0]).Contents? && RowsOf(files, read, embed).Success? {
      var chunks := FileChunks(read(files[0]).text);
      var first := ChunkRows(files[0], chunks, embed);
      var rest := RowsOf(files[1..], read, embed).value;
      assert RowsOf(files, read, embed).value == first + rest;
      RowIdsDistinct(files[1..], read, embed);
      RowsOfFiles(files[1..], read, embed);
      ChunkRowsDistinct(files[0], chunks, embed);
      ChunkRowsIds(files[0], chunks, embed);
      assert files[0] !in files[1..];
      DisjointIds(files[0], first, rest);
      AppendDistinct(first, rest);
    }
  }

  /** Each row of a file carries the id of one of its chunks. */
  lemma ChunkRowsIds(file: string, chunks: seq<string>, embed: string -> seq<real>)
    ensures forall r :: r in ChunkRows(file, chunks, embed) ==>
      r.file == file && exists n :: 1 <= n <= |chunks| && r.id == ChunkId(file, n)
  {
    var first := ChunkRows(file, chunks, embed);
    forall r | r in first ensures r.file == file && exists n :: 1 <= n <= |chunks| && r.id == ChunkId(file, n) {
      var k :| 0 <= k < |first| && first[k] == r;
      assert r.id == ChunkId(file, k + 1);
    }
  }

  predicate DistinctIds(rows: seq<Row>)
  {
    forall i, j :: 0 <= i < j < |rows| ==> rows[i].id != rows[j].id
  }

  // ---------------------------------------------------------------- the driver

  /** How a run ends: exit status 1 with the reason, or the rows handed to a backend.
      pgvector is reached through `DATABASE_URL` as the environment holds it after
      `.env.local` is loaded; the table after the upsert is part of the outcome. */
  datatype RunEnd =
    | MissingApiKey
    | NoMarkdownFiles
    | ReadFailed(file: string)
    | StoreFailed(rows: seq<Row>, error: StoreError, table: map<Key, Stored>)
    | Upserted(rows: seq<Row>, table: map<Key, Stored>)
    | WroteJson(rows: seq<Row>)

  /** Whether a variable is set to a non-empty value (JavaScript truthiness of a string). */
  predicate IsSet(vars: map<string, string>, key: string)
  {
    key in vars && vars[key] != ""
  }

  /** `(process.env.VECTOR_BACKEND || "file").toLowerCase()`. */
  function Backend(vars: map<string, string>): string
  {
    Lower(if IsSet(vars, "VECTOR_BACKEND") then vars["VECTOR_BACKEND"] else "file")
  }

  /** `DATABASE_URL` as lib/db.ts reads it; unset reads as empty. */
  function DatabaseUrl(vars: map<string, string>): string
  {
    if "DATABASE_URL" in vars then vars["DATABASE_URL"] else ""
  }

  /** What the driver does with the environment it ends up with; `names` is the directory
      listing, None when it cannot be read, and `db` the pgvector table before the run. */
  function Outcome(vars: map<string, string>, names: Option<seq<string>>,
                   read: string -> FileRead, embed: string -> seq<real>,
                   db: map<Key, Stored>): RunEnd
  {
    var files := if names.Some? then MarkdownFiles(names.value) else [];
    if !IsSet(vars, "OPENAI_API_KEY") then MissingApiKey
    else if files == [] then NoMarkdownFiles
    else match RowsOf(files, read, embed)
      case Failure(f) => ReadFailed(f)
      case Success(rows) => Deliver(vars, rows, db)
  }

  /** The last step: the rows go to pgvector or to the JSON file. */
  function Deliver(vars: map<string, string>, rows: seq<Row>, db: map<Key, Stored>): (o: RunEnd)
    ensures o.WroteJson? || o.StoreFailed? || o.Upserted?
    ensures o.rows == rows
  {
    if Backend(vars) != "pg" then WroteJson(rows)
    else if DatabaseUrl(vars) == "" then StoreFailed(rows, MissingDatabaseUrl, db)
    else
      var (t, err) := Upsert(db, rows);
      if err.Some? then StoreFailed(rows, err.value, t) else Upserted(rows, t)
  }

  /** A run that gets as far as a backend has built its rows from the listed files. */
  lemma OutcomeDelivers(vars: map<string, string>, names: seq<string>,
                        read: string -> FileRead, embed: string -> seq<real>, db: map<Key, Stored>)
    ensures var o := Outcome(vars, Some(names), read, embed, db);
      o.WroteJson? || o.StoreFailed? || o.Upserted? ==>
        RowsOf(MarkdownFiles(names), read, embed) == Success(o.rows) && o == Deliver(vars, o.rows, db)
  {
  }

  /** The run exits early exactly when the key is unset or no Markdown file is listed;
      the rows go to pgvector only when the backend names it, in any letter case. */
  lemma OutcomeCases(vars: map<string, string>, names: Option<seq<string>>,
                     read: string -> FileRead, embed: string -> seq<real>, db: map<Key, Stored>)
    ensures Outcome(vars, names, read, embed, db) == MissingApiKey <==> !IsSet(vars, "OPENAI_API_KEY")
    ensures var o := Outcome(vars, names, read, embed, db);
      o.Upserted? || o.StoreFailed? ==> IsSet(vars, "VECTOR_BACKEND") && Lower(vars["VECTOR_BACKEND"]) == "pg"
    ensures Outcome(vars, names, read, embed, db) == NoMarkdownFiles
            <==> IsSet(vars, "OPENAI_API_KEY") && (names.None? || forall n :: n in names.value ==> !IsMarkdown(n))
  {
    if names.Some? {
      MarkdownFilesMembers(names.value);
      var files := MarkdownFiles(names.value);
      if files != [] {
        assert files[0] in names.value && IsMarkdown(files[0]);
      }
    }
    if !IsSet(vars, "VECTOR_BACKEND") {
      LowerFile();
    }
  }

  lemma LowerFile()
    ensures Lower("file") != "pg"
  {
    assert |Lower("file")| == 4;
  }

  /** Rows handed to a backend have unique ids, each `file#n` of a listed Markdown file,
      with `n` at most the number of rows. */
  lemma OutcomeRows(vars: map<string, string>, names: seq<string>,
                    read: string -> FileRead, embed: string -> seq<real>, db: map<Key, Stored>)
    requires Distinct(names)
    ensures var o := Outcome(vars, Some(names), read, embed, db);
      (o.Upserted? || o.StoreFailed? || o.WroteJson?) ==>
        && DistinctIds(o.rows)
        && forall r :: r in o.rows ==>
             && IsMarkdown(r.file) && r.file in names
             && exists n :: 1 <= n <= |o.rows| && r.id == ChunkId(r.file, n)
  {
    var files := MarkdownFiles(names);
    OutcomeDelivers(vars, names, read, embed, db);
    MarkdownFilesDistinct(names);
    MarkdownFilesMembers(names);
    RowIdsDistinct(files, read, embed);
    RowsOfFiles(files, read, embed);
  }

  /** Rows as the driver builds them: distinct ids `file#n` over file names without `#`,
      `n` within the `INT` range, and embeddings of 1536 numbers. */
  predicate Storable(rows: seq<Row>)
  {
    && DistinctIds(rows)
    && forall r :: r in rows ==>
         && '#' !in r.file && |r.embedding| == Dimensions
         && exists n :: 1 <= n <= IntMax && r.id == ChunkId(r.file, n)
  }

  /** The table holds row `r` under the key its id `file#n` names. */
  ghost predicate StoredUnderId(t: map<Key, Stored>, r: Row)
  {
    exists n: nat ::
      && r.id == ChunkId(r.file, n)
      && (r.file, n) in t
      && t[(r.file, n)] == Stored(r.text, r.embedding)
  }

  /** Upserting such rows fails on none of them and stores each under `(file, n)` for its
      id `file#n`: the ids the driver builds are the keys the table reads back. */
  lemma UpsertStorable(db: map<Key, Stored>, rows: seq<Row>)
    requires Storable(rows)
    ensures Upsert(db, rows).1.None?
    ensures forall r :: r in rows ==> StoredUnderId(Upsert(db, rows).0, r)
  {
    forall i | 0 <= i < |rows|
      ensures exists n :: 1 <= n <= IntMax && rows[i].id == ChunkId(rows[i].file, n)
                          && KeyOf(rows[i]) == Some((rows[i].file, n))
    {
      assert rows[i] in rows;
      var n :| 1 <= n <= IntMax && rows[i].id == ChunkId(rows[i].file, n);
      IdRoundTrip(rows[i].file, n, rows[i].text, rows[i].embedding);
    }
    forall i | 0 <= i < |rows| ensures RowError(rows[i]).None? {
      assert rows[i] in rows;
    }
    UpsertAllValid(db, rows);
    var t := Upsert(db, rows).0;
    forall r | r in rows ensures StoredUnderId(t, r) {
      var i :| 0 <= i < |rows| && rows[i] == r;
      var n :| 1 <= n <= IntMax && r.id == ChunkId(r.file, n) && KeyOf(r) == Some((r.file, n));
      forall j | i < j < |rows| ensures KeyOf(rows[j]) != KeyOf(rows[i]) {
        var m :| 1 <= m <= IntMax && rows[j].id == ChunkId(rows[j].file, m)
                 && KeyOf(rows[j]) == Some((rows[j].file, m));
        assert rows[i].id != rows[j].id;
      }
      UpsertLastWins(db, rows, i);
      assert (r.file, n) in t && t[(r.file, n)] == Stored(r.text, r.embedding);
    }
  }

  /** With the pgvector backend, a database URL, file names without `#`, embeddings of
      1536 numbers and fewer than 2^31 rows, the run upserts every row under its key. */
  lemma PgStoresEveryRow(vars: map<string, string>, names: seq<string>,
                         read: string -> FileRead, embed: string -> seq<real>, db: map<Key, Stored>)
    requires IsSet(vars, "OPENAI_API_KEY") && Backend(vars) == "pg" && DatabaseUrl(vars) != ""
    requires Distinct(names) && forall n :: n in names ==> '#' !in n
    requires forall t :: |embed(t)| == Dimensions
    requires MarkdownFiles(names) != [] && RowsOf(MarkdownFiles(names), read, embed).Success?
    requires |RowsOf(MarkdownFiles(names), read, embed).value| <= IntMax
    ensures var o := Outcome(vars, Some(names), read, embed, db);
      && o.Upserted? && o.rows == RowsOf(MarkdownFiles(names), read, embed).value
      && forall r :: r in o.rows ==> StoredUnderId(o.table, r)
  {
    var o := Outcome(vars, Some(names), read, embed, db);
    OutcomeBackend(vars, names, read, embed, db);
    assert o.Upserted? || o.StoreFailed?;
    OutcomeRows(vars, names, read, embed, db);
    OutcomeDelivers(vars, names, read, embed, db);
    RowEmbeddings(MarkdownFiles(names), read, embed);
    var rows := o.rows;
    forall r | r in rows
      ensures '#' !in r.file && |r.embedding| == Dimensions
      ensures exists n :: 1 <= n <= IntMax && r.id == ChunkId(r.file, n)
    {
      var n :| 1 <= n <= |rows| && r.id == ChunkId(r.file, n);
    }
    UpsertStorable(db, rows);
  }

  /** A run that builds its rows hands them to the backend `VECTOR_BACKEND` names:
      to pgvector exactly when it lower-cases to `pg`, otherwise to the JSON file. */
  lemma OutcomeBackend(vars: map<string, string>, names: seq<string>,
                       read: string -> FileRead, embed: string -> seq<real>, db: map<Key, Stored>)
    requires IsSet(vars, "OPENAI_API_KEY") && MarkdownFiles(names) != []
    requires RowsOf(MarkdownFiles(names), read, embed).Success?
    ensures var o := Outcome(vars, Some(names), read, embed, db);
      && o.rows == RowsOf(MarkdownFiles(names), read, embed).value
      && (o.Upserted? || o.StoreFailed? <==> Backend(vars) == "pg")
      && (o.WroteJson? <==> Backend(vars) != "pg")
  {
  }

  /** Every row carries the embedding of its own text. */
  lemma {:induction false} RowEmbeddings(files: seq<string>, read: string -> FileRead, embed: string -> seq<real>)
    ensures RowsOf(files, read, embed).Success? ==>
      forall r :: r in RowsOf(files, read, embed).value ==> r.embedding == embed(r.text)
  {
    if files != [] && read(files[0]).Contents? {
      RowEmbeddings(files[1..], read, embed);
    }
  }

  /** `main`: the environment is loaded into `env`, the rows of a pgvector run are
      upserted into a table reached through `DATABASE_URL`, and the outcome returned. */
  method RunEmbed(env: EnvFile.ProcessEnv, envFile: FileRead, names: Option<seq<string>>,
                  read: string -> FileRead, embed: string -> seq<real>, db: map<Key, Stored>)
    returns (o: RunEnd)
    modifies env
    ensures envFile.Contents? ==> env.vars == EnvFile.Apply(old(env.vars), EnvFile.SplitLines(envFile.text))
    ensures !envFile.Contents? ==> env.vars == old(env.vars)
    ensures o == Outcome(env.vars, names, read, embed, db)
  {
    env.LoadEnvLocal(envFile);
    if !("OPENAI_API_KEY" in env.vars && env.vars["OPENAI_API_KEY"] != "") {
      return MissingApiKey;
    }
    var backend := Backend(env.vars);
    var mdFiles: seq<string> := [];
    if names.Some? {
      mdFiles := ListMarkdownFiles(names.value);
    }
    if |mdFiles| == 0 {
      return NoMarkdownFiles;
    }
    var rows := BuildRows(mdFiles, read, embed);
    if rows.Failure? {
      return ReadFailed(rows.error);
    }
    if backend == "pg" {
      var store := new ChunkTable(DatabaseUrl(env.vars), db);
      var err := store.UpsertChunks(rows.value);
      if err.Some? {
        o := StoreFailed(rows.value, err.value, store.chunks);
      } else {
        o := Upserted(rows.value, store.chunks);
      }
    } else {
      o := WroteJson(rows.value);
    }
  }

  /** The loop over the Markdown files: chunk each one, embed each chunk, collect the rows. */
  method BuildRows(files: seq<string>, read: string -> FileRead, embed: string -> seq<real>)
    returns (r: Result<seq<Row>, string>)
    ensures r == RowsOf(files, read, embed)
  {
    var rows: seq<Row> := [];
    var k := 0;
    assert files[0..] == files;
    PrefixNil(RowsOf(files, read, embed));
    while k < |files|
      invariant k <= |files|
      invariant RowsOf(files, read, embed) == Prefix(rows, RowsOf(files[k..], read, embed))
    {
      RowsOfAt(files, k, read, embed);
      var file := files[k];
      var raw := read(file);
      if !raw.Contents? {
        return Failure(file);
      }
      var chunks := FileChunks(raw.text);
      var fileRows := EmbedChunks(file, chunks, embed);
      PrefixAppend(rows, fileRows, RowsOf(files[k + 1..], read, embed));
      rows := rows + fileRows;
      k := k + 1;
    }
    assert files[k..] == [];
    assert RowsOf(files[k..], read, embed) == Success([]);
    assert rows + [] == rows;
    r := Success(rows);
  }

  /** The loop over one file's chunks: one row per chunk, numbered from 1. */
  method EmbedChunks(file: string, chunks: seq<string>, embed: string -> seq<real>) returns (rows: seq<Row>)
    ensures rows == ChunkRows(file, chunks, embed)
  {
    rows := [];
    for i := 0 to |chunks|
      invariant rows == ChunkRows(file, chunks[..i], embed)
    {
      assert ChunkRows(file, chunks[..i + 1], embed)
             == ChunkRows(file, chunks[..i], embed) + [Row(ChunkId(file, i + 1), file, chunks[i], embed(chunks[i]))];
      rows := rows + [Row(ChunkId(file, i + 1), file, chunks[i], embed(chunks[i]))];
    }
    assert chunks[..|chunks|] == chunks;
  }

  /** Rows already collected, followed by the outcome of the remaining files. */
  function Prefix(rows: seq<Row>, rest: Result<seq<Row>, string>): Result<seq<Row>, string>
  {
    match rest
    case Success(rs) => Success(rows + rs)
    case Failure(f) => Failure(f)
  }

  /** The rows from file `k` on: those of file `k`, then the rest, or the failure. */
  lemma RowsOfAt(files: seq<string>, k: nat, read: string -> FileRead, embed: string -> seq<real>)
    requires k < |files|
    ensures !read(files[k]).Contents? ==> RowsOf(files[k..], read, embed) == Failure(files[k])
    ensures read(files[k]).Contents? ==>
              RowsOf(files[k..], read, embed) == Prefix(ChunkRows(files[k], FileChunks(read(files[k]).text), embed), RowsOf(files[k + 1..], read, embed))
  {
    assert files[k..][1..] == files[k + 1..];
  }

  lemma PrefixNil(rest: Result<seq<Row>, string>)
    ensures Prefix([], rest) == rest
  {
    match rest
    case Success(rs) => assert [] + rs == rs;
    case Failure(_) =>
  }

  lemma PrefixAppend(a: seq<Row>, b: seq<Row>, rest: Result<seq<Row>, string>)
    ensures Prefix(a, Prefix(b, rest)) == Prefix(a + b, rest)
  {
    match rest
    case Success(rs) => assert a + (b + rs) == a + b + rs;
    case Failure(_) =>
  }
}
