/** lib/db.ts: the pgvector `chunks` table keyed by `(file, chunk_index)`, the upsert
    loop that fills it, and the nearest-neighbour query. The database is a map from
    keys to the columns an upsert writes; the distance the query orders by is a
    parameter. */
module ChunkStore {
  import opened Js

  /** A row handed to `upsertChunks`, as scripts/embed.ts builds it. */
  datatype Row = Row(id: string, file: string, text: string, embedding: seq<real>)

  /** The unique key `(file, chunk_index)` of the table. */
  type Key = (string, int)

  /** The columns an upsert writes besides the key. */
  datatype Stored = Stored(text: string, embedding: seq<real>)

  /** Why a call fails: no connection string (the error "Missing DATABASE_URL for
      pgvector backend."), or a row the table's column types reject. */
  datatype StoreError =
    | MissingDatabaseUrl
    | InvalidChunkIndex(id: string)
    | WrongDimensions(id: string, count: nat)

  /** `vector(1536)`: the embedding column's dimension. */
  const Dimensions: nat := 1536

  /** Range of the `INT` column. */
  const IntMin: int := -0x8000_0000
  const IntMax: int := 0x7FFF_FFFF

  // ---------------------------------------------------------------- connection

  /** `getClient`: an empty `DATABASE_URL` (unset counts as empty) fails before any
      connection is made. */
  function GetClient(url: string): (r: Result<string, StoreError>)
    ensures r.Failure? <==> url == []
    ensures r.Failure? ==> r.error == MissingDatabaseUrl
    ensures r.Success? ==> r.value == url
  {
    if url == [] then Failure(MissingDatabaseUrl) else Success(url)
  }

  // ---------------------------------------------------------------- keys

  /** `id.split("#")[1]`: the text between the first `#` and the next one (or the end);
      None when the id holds no `#`. */
  function SecondField(id: string): (r: Option<string>)
    ensures r.None? <==> '#' !in id
    ensures r.Some? ==> '#' !in r.value
  {
    var h := IndexOf(id, '#');
    if h == -1 then None
    else
      var rest := id[h + 1..];
      var e := IndexOf(rest, '#');
      Some(if e == -1 then rest else rest[..e])
  }

  /** `Number(id.split("#")[1] || "1")`; None stands for NaN. */
  function IndexNumber(id: string): Option<real>
  {
    var f := SecondField(id);
    NumberOf(if f.Some? && f.value != [] then f.value else "1")
  }

  /** The `chunk_index` the database stores: the number when it is an integer within the
      column's 32-bit range; None when the database rejects it. */
  function ChunkIndex(id: string): (r: Option<int>)
    ensures r.Some? ==> IntMin <= r.value <= IntMax && IndexNumber(id) == Some(r.value as real)
    ensures IndexNumber(id).Some? && IndexNumber(id).value == IndexNumber(id).value.Floor as real
            && IntMin <= IndexNumber(id).value.Floor <= IntMax
            ==> r == Some(IndexNumber(id).value.Floor)
  {
    var v := IndexNumber(id);
    if v.Some? && v.value == v.value.Floor as real && IntMin <= v.value.Floor <= IntMax
    then Some(v.value.Floor) else None
  }

  /** An id with no `#`, or with nothing between its first `#` and the next, gets index 1. */
  lemma DefaultIndex(id: string)
    requires SecondField(id).None? || SecondField(id) == Some([])
    ensures ChunkIndex(id) == Some(1)
  {
    NumberOfDigits("1");
    assert DigitsValue("1") == 10 * DigitsValue("") + DigitOf('1');
  }

  function KeyOf(r: Row): Option<Key>
  {
    match ChunkIndex(r.id)
    case Some(n) => Some((r.file, n))
    case None => None
  }

  /** The error the insert statement for `r` fails with, if any. */
  function RowError(r: Row): Option<StoreError>
  {
    if ChunkIndex(r.id).None? then Some(InvalidChunkIndex(r.id))
    else if |r.embedding| != Dimensions then Some(WrongDimensions(r.id, |r.embedding|))
    else None
  }

  /** An id `file#n` built by scripts/embed.ts, with no `#` in the file name and `n`
      within the column's range, is stored under `(file, n)`, and a hit for that key
      rebuilds the same id. */
  lemma IdRoundTrip(file: string, n: nat, text: string, embedding: seq<real>)
    requires '#' !in file && 1 <= n <= IntMax
    ensures KeyOf(Row(file + "#" + NatToString(n), file, text, embedding)) == Some((file, n))
    ensures forall s: Stored :: HitOf((file, n), s).id == file + "#" + NatToString(n)
  {
    var digits := NatToString(n);
    var id := file + "#" + digits;
    forall x | 0 <= x < |file| ensures id[x] != '#' {
      assert id[x] == file[x];
    }
    assert id[|file|] == '#';
    IndexOfAt(id, '#', |file|);
    assert id[|file| + 1..] == digits;
    assert '#' !in digits by {
      forall x | 0 <= x < |digits| ensures digits[x] != '#' { assert IsDigit(digits[x]); }
    }
    assert SecondField(id) == Some(digits);
    NumberOfDigits(digits);
    DigitsOfNat(n);
    assert IndexNumber(id) == Some(n as real);
  }

  // ---------------------------------------------------------------- upsert

  /** The table after upserting `rows` in order (`ON CONFLICT (file, chunk_index) DO
      UPDATE` replaces the text and embedding), and the error of the first row the
      database rejects; the rows before it stay written. */
  function Upsert(table: map<Key, Stored>, rows: seq<Row>): (map<Key, Stored>, Option<StoreError>)
    decreases |rows|
  {
    if rows == [] then (table, None)
    else match RowError(rows[0])
      case Some(e) => (table, Some(e))
      case None => Upsert(table[KeyOf(rows[0]).value := Stored(rows[0].text, rows[0].embedding)], rows[1..])
  }

  /** A key no row names keeps its old value, whether or not a row fails. */
  lemma {:induction false} UpsertUntouched(table: map<Key, Stored>, rows: seq<Row>, k: Key)
    requires forall i :: 0 <= i < |rows| ==> KeyOf(rows[i]) != Some(k)
    ensures var t := Upsert(table, rows).0; (k in t <==> k in table) && (k in table ==> t[k] == table[k])
    decreases |rows|
  {
    if rows != [] && RowError(rows[0]).None? {
      assert KeyOf(rows[0]) != Some(k);
      UpsertUntouched(table[KeyOf(rows[0]).value := Stored(rows[0].text, rows[0].embedding)], rows[1..], k);
    }
  }

  /** When every row is accepted, the last row with a key decides that key's text and
      embedding. */
  lemma {:induction false} UpsertLastWins(table: map<Key, Stored>, rows: seq<Row>, i: nat)
    requires i < |rows| && Upsert(table, rows).1.None?
    requires forall j :: i < j < |rows| ==> KeyOf(rows[j]) != KeyOf(rows[i])
    ensures var t := Upsert(table, rows).0;
      && KeyOf(rows[i]).Some? && KeyOf(rows[i]).value in t
      && t[KeyOf(rows[i]).value] == Stored(rows[i].text, rows[i].embedding)
    decreases |rows|
  {
    assert RowError(rows[0]).None?;
    var t' := table[KeyOf(rows[0]).value := Stored(rows[0].text, rows[0].embedding)];
    assert Upsert(table, rows) == Upsert(t', rows[1..]);
    if i == 0 {
      var k := KeyOf(rows[0]).value;
      forall j | 0 <= j < |rows[1..]| ensures KeyOf(rows[1..][j]) != Some(k) {
        assert rows[1..][j] == rows[j + 1];
      }
      UpsertUntouched(t', rows[1..], k);
    } else {
      forall j | i - 1 < j < |rows[1..]| ensures KeyOf(rows[1..][j]) != KeyOf(rows[1..][i - 1]) {
        assert rows[1..][j] == rows[j + 1];
      }
      UpsertLastWins(t', rows[1..], i - 1);
    }
  }

  /** When every row is accepted, the table holds exactly the old keys and the keys of
      the rows. */
  lemma {:induction false} UpsertKeys(table: map<Key, Stored>, rows: seq<Row>, k: Key)
    requires Upsert(table, rows).1.None?
    ensures k in Upsert(table, rows).0 <==> k in table || exists i :: 0 <= i < |rows| && KeyOf(rows[i]) == Some(k)
    decreases |rows|
  {
    if rows != [] {
      var t' := table[KeyOf(rows[0]).value := Stored(rows[0].text, rows[0].embedding)];
      UpsertKeys(t', rows[1..], k);
      if exists i :: 0 <= i < |rows[1..]| && KeyOf(rows[1..][i]) == Some(k) {
        var i :| 0 <= i < |rows[1..]| && KeyOf(rows[1..][i]) == Some(k);
        assert rows[i + 1] == rows[1..][i];
      }
      if exists i :: 0 <= i < |rows| && KeyOf(rows[i]) == Some(k) {
        var i :| 0 <= i < |rows| && KeyOf(rows[i]) == Some(k);
        if i > 0 { assert rows[1..][i - 1] == rows[i]; }
      }
    }
  }

  /** The first rejected row stops the loop: the rows before it are written, none after. */
  lemma {:induction false} UpsertStopsAt(table: map<Key, Stored>, rows: seq<Row>, i: nat)
    requires i < |rows| && RowError(rows[i]).Some?
    requires forall j :: 0 <= j < i ==> RowError(rows[j]).None?
    ensures Upsert(table, rows) == (Upsert(table, rows[..i]).0, RowError(rows[i]))
    decreases i
  {
    if i > 0 {
      var t' := table[KeyOf(rows[0]).value := Stored(rows[0].text, rows[0].embedding)];
      assert rows[..i][1..] == rows[1..][..i - 1];
      UpsertStopsAt(t', rows[1..], i - 1);
    }
  }

  /** When the database accepts every row, the upsert reports no error. */
  lemma {:induction false} UpsertAllValid(table: map<Key, Stored>, rows: seq<Row>)
    requires forall i :: 0 <= i < |rows| ==> RowError(rows[i]).None?
    ensures Upsert(table, rows).1.None?
    decreases |rows|
  {
    if rows != [] {
      UpsertAllValid(table[KeyOf(rows[0]).value := Stored(rows[0].text, rows[0].embedding)], rows[1..]);
    }
  }

  /** The table behind the store, and the connection string it is reached with. */
  class ChunkTable {
    var chunks: map<Key, Stored>
    const databaseUrl: string

    constructor(url: string, initial: map<Key, Stored>)
      ensures databaseUrl == url && chunks == initial
    {
      databaseUrl := url;
      chunks := initial;
    }

    /** `upsertChunks`: one insert-or-update per row, in order. */
    method UpsertChunks(rows: seq<Row>) returns (err: Option<StoreError>)
      modifies this
      ensures databaseUrl == [] ==> err == Some(MissingDatabaseUrl) && chunks == old(chunks)
      ensures databaseUrl != [] ==> (chunks, err) == Upsert(old(chunks), rows)
    {
      var client := GetClient(databaseUrl);
      if client.Failure? {
        return Some(client.error);
      }
      var i := 0;
      while i < |rows|
        invariant 0 <= i <= |rows|
        invariant Upsert(old(chunks), rows) == Upsert(chunks, rows[i..])
      {
        assert rows[i..][1..] == rows[i + 1..];
        var idx := ChunkIndex(rows[i].id);
        if idx.None? {
          return Some(InvalidChunkIndex(rows[i].id));
        }
        if |rows[i].embedding| != Dimensions {
          return Some(WrongDimensions(rows[i].id, |rows[i].embedding|));
        }
        chunks := chunks[(rows[i].file, idx.value) := Stored(rows[i].text, rows[i].embedding)];
        i := i + 1;
      }
      return None;
    }
  }

  // ---------------------------------------------------------------- nearest neighbours

  /** `DBHit`. */
  datatype Hit = Hit(id: string, file: string, text: string)

  /** A returned row as a hit: the id is rebuilt as `file#chunk_index`. */
  function HitOf(k: Key, s: Stored): Hit
  {
    Hit(k.0 + "#" + IntToString(k.1), k.0, s.text)
  }

  /** `searchNearest` after the query: the rows the database returns, as hits. */
  function SearchNearest(url: string, found: seq<(Key, Stored)>): (r: Result<seq<Hit>, StoreError>)
    ensures r.Failure? <==> url == []
    ensures r.Success? ==> |r.value| == |found|
  {
    match GetClient(url)
    case Failure(e) => Failure(e)
    case Success(_) => Success(seq(|found|, i requires 0 <= i < |found| => HitOf(found[i].0, found[i].1)))
  }

  /** What `SELECT ... ORDER BY embedding <-> q LIMIT k` returns from `table`: rows of the
      table, no key twice, `min(k, size)` of them, nearest first, and no row left out
      nearer than one returned. */
  ghost predicate Nearest(table: map<Key, Stored>, q: seq<real>, k: nat,
                          dist: (seq<real>, seq<real>) -> real, found: seq<(Key, Stored)>)
  {
    && |found| == (if k < |table| then k else |table|)
    && (forall i :: 0 <= i < |found| ==> found[i].0 in table && table[found[i].0] == found[i].1)
    && (forall i, j :: 0 <= i < j < |found| ==> found[i].0 != found[j].0)
    && (forall i, j :: 0 <= i < j < |found| ==> dist(found[i].1.embedding, q) <= dist(found[j].1.embedding, q))
    && (forall key, i :: key in table && 0 <= i < |found| && (forall j :: 0 <= j < |found| ==> found[j].0 != key)
          ==> dist(found[i].1.embedding, q) <= dist(table[key].embedding, q))
  }

  /** The hits of a nearest query: at most `k`, nearest first, each a stored row whose id
      is its file and index joined by `#`. */
  lemma NearestHits(table: map<Key, Stored>, q: seq<real>, k: nat,
                    dist: (seq<real>, seq<real>) -> real, found: seq<(Key, Stored)>, url: string)
    requires Nearest(table, q, k, dist, found) && url != []
    ensures var r := SearchNearest(url, found);
      && r.Success? && |r.value| <= k
      && (forall i :: 0 <= i < |r.value| ==>
            var key := found[i].0;
            && key in table && r.value[i] == Hit(key.0 + "#" + IntToString(key.1), key.0, table[key].text))
      && (forall i, j :: 0 <= i < j < |r.value| ==>
            dist(table[found[i].0].embedding, q) <= dist(table[found[j].0].embedding, q))
  {
  }
}
