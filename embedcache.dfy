/** `loadEmbeddings` of lib/search.ts: reads data/embeddings.json once and keeps the
    parsed array in a module-level cache. The file read and JSON.parse are parameters. */
module EmbeddingCache {
  import opened Js

  const MissingFileHint: string := "No data/embeddings.json found. Run: pnpm dlx tsx scripts/embed.ts"
  const NotArrayMessage: string := "embeddings.json is not an array"

  /** The error `loadEmbeddings` rejects with, built from the hint for the failure. */
  function LoadError(path: string, hint: string): string
  {
    "Failed to load " + path + ". " + hint
  }

  /** A load that finds nothing cached: the array read from the file, or the error. */
  function ReadEmbeddings(path: string, file: FileRead, parse: JsonParser): (r: Result<seq<Json>, string>)
    ensures r.Failure? ==> StartsWith(r.error, "Failed to load " + path + ". ")
  {
    match file
    case NotFound => Failure(LoadError(path, MissingFileHint))
    case ReadError(m) => Failure(LoadError(path, m))
    case Contents(text) =>
      match parse(text)
      case Failure(m) => Failure(LoadError(path, m))
      case Success(JArr(items)) => Success(items)
      case Success(_) => Failure(LoadError(path, NotArrayMessage))
  }

  /** A load from cache state `cache`: what it returns and what the cache holds after. */
  function Load(cache: Option<seq<Json>>, path: string, file: FileRead, parse: JsonParser)
    : (Result<seq<Json>, string>, Option<seq<Json>>)
  {
    if cache.Some? then (Success(cache.value), cache)
    else
      var r := ReadEmbeddings(path, file, parse);
      (r, if r.Success? then Some(r.value) else None)
  }

  /** The module state: the path of the embeddings file and the cached array. */
  class Store {
    const path: string
    var cache: Option<seq<Json>>

    constructor(path: string)
      ensures this.path == path && cache == None
    {
      this.path := path;
      cache := None;
    }

    /** `loadEmbeddings`; `file` is what reading the file gives, used only on a miss. */
    method LoadEmbeddings(file: FileRead, parse: JsonParser) returns (r: Result<seq<Json>, string>)
      modifies this
      ensures (r, cache) == Load(old(cache), path, file, parse)
    {
      if cache.Some? {
        return Success(cache.value);
      }
      r := ReadEmbeddings(path, file, parse);
      if r.Success? {
        cache := Some(r.value);
      }
    }
  }

  /** Once a load has succeeded, every later load returns the same array, whatever the
      file now holds, and keeps the cache. */
  lemma CachedAfterSuccess(cache: Option<seq<Json>>, path: string, file: FileRead, parse: JsonParser,
                           file': FileRead, parse': JsonParser)
    requires Load(cache, path, file, parse).0.Success?
    ensures var (r, c) := Load(cache, path, file, parse);
      c == Some(r.value) && Load(c, path, file', parse') == (r, c)
  {
  }

  /** A load that fails leaves the cache empty; a missing file gives the hint to run the
      embedding script, and text that parses to anything but an array says so. */
  lemma FailureLeavesCacheEmpty(cache: Option<seq<Json>>, path: string, file: FileRead, parse: JsonParser)
    requires Load(cache, path, file, parse).0.Failure?
    ensures cache.None? && Load(cache, path, file, parse).1.None?
    ensures file.NotFound? ==> Load(cache, path, file, parse).0.error == LoadError(path, MissingFileHint)
    ensures file.Contents? && parse(file.text).Success? ==>
      !parse(file.text).value.JArr? && Load(cache, path, file, parse).0.error == LoadError(path, NotArrayMessage)
  {
  }

  /** A load succeeds from an empty cache exactly when the file parses to an array. */
  lemma LoadSucceedsIff(path: string, file: FileRead, parse: JsonParser)
    ensures Load(None, path, file, parse).0.Success? <==>
      file.Contents? && parse(file.text).Success? && parse(file.text).value.JArr?
    ensures Load(None, path, file, parse).0.Success? ==>
      Load(None, path, file, parse).0.value == parse(file.text).value.elems
  {
  }
}
