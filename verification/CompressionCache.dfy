/** The three caches of compressed responses.  Each names or checks its entries by a hash of the
    content, so a stored body is wrong only when two different contents share a hash. */
module CompressionCaches {

  type Bytes = seq<int>

  datatype Encoding = Br | Gzip

  /** A content hash and an encoding, `${hash}|${encoding}`. */
  datatype Key = Key(hash: string, encoding: Encoding)

  /** One entry of a Map in insertion order. */
  datatype Entry = Entry(key: Key, buf: Bytes)

  datatype FileKey = FileKey(path: string, encoding: Encoding)

  datatype Hit = Hit(hash: string, buf: Bytes)

  const JSON_CACHE_MAX_BYTES := 4 * 1024 * 1024
  const HTML_CACHE_MAX := 24

  /** Total length of the stored buffers. */
  function Stored(s: seq<Entry>): nat {
    if s == [] then 0 else |s[0].buf| + Stored(s[1..])
  }

  lemma {:induction false} StoredAppend(s: seq<Entry>, e: Entry)
    ensures Stored(s + [e]) == Stored(s) + |e.buf|
  {
    if s == [] {
      assert s + [e] == [e];
    } else {
      StoredAppend(s[1..], e);
      assert (s + [e])[1..] == s[1..] + [e];
    }
  }

  predicate Has(s: seq<Entry>, key: Key) {
    exists i :: 0 <= i < |s| && s[i].key == key
  }

  ghost predicate Distinct(s: seq<Entry>) {
    forall i, j | 0 <= i < j < |s| :: s[i].key != s[j].key
  }

  /** The oldest entries go until the total is within the budget or one entry is left. */
  function Trim(s: seq<Entry>): (r: seq<Entry>)
    ensures Distinct(s) ==> Distinct(r)
    ensures forall e | e in r :: e in s
    ensures s != [] ==> r != [] && r[|r| - 1] == s[|s| - 1]
  {
    if Stored(s) > JSON_CACHE_MAX_BYTES && |s| > 1 then Trim(s[1..]) else s
  }

  lemma NothingStored()
    ensures Stored([]) == 0
  {
  }

  lemma TrimStep(s: seq<Entry>)
    ensures Trim(s) == if Stored(s) > JSON_CACHE_MAX_BYTES && |s| > 1 then Trim(s[1..]) else s
  {
  }

  /** What is kept is the longest end of the list that fits, or the newest entry alone when
      not even that fits. */
  lemma {:induction false} TrimKeepsLongestFit(s: seq<Entry>)
    ensures |Trim(s)| <= |s| && Trim(s) == s[|s| - |Trim(s)|..]
    ensures Stored(Trim(s)) <= 4 * 1024 * 1024 || |Trim(s)| == 1
    ensures forall k | 0 <= k < |s| - |Trim(s)| :: Stored(s[k..]) > 4 * 1024 * 1024
  {
    hide Stored, Trim;
    NothingStored();
    TrimStep(s);
    if Stored(s) > JSON_CACHE_MAX_BYTES && |s| > 1 {
      TrimKeepsLongestFit(s[1..]);
      assert s[1..][|s| - 1 - |Trim(s)|..] == s[|s| - |Trim(s)|..];
      forall k | 0 <= k < |s| - |Trim(s)| ensures Stored(s[k..]) > JSON_CACHE_MAX_BYTES {
        if k == 0 { assert s[0..] == s; } else { assert s[k..] == s[1..][k-1..]; }
      }
    }
  }

  lemma TrimFits(s: seq<Entry>)
    ensures Stored(Trim(s)) <= JSON_CACHE_MAX_BYTES || |Trim(s)| == 1
  {
    TrimKeepsLongestFit(s);
  }

  ghost predicate CollisionFree(hash: Bytes -> string) {
    forall x, y :: hash(x) == hash(y) ==> x == y
  }

  /** A cache, with the content each stored key was last made from. */
  ghost predicate Faithful(s: seq<Entry>, from: map<Key, Bytes>,
                           compress: (Bytes, Encoding) -> Bytes, hash: Bytes -> string) {
    forall e | e in s ::
      e.key in from && hash(from[e.key]) == e.key.hash && e.buf == compress(from[e.key], e.key.encoding)
  }

  lemma FaithfulAppend(s: seq<Entry>, from: map<Key, Bytes>, content: Bytes, encoding: Encoding,
                       compress: (Bytes, Encoding) -> Bytes, hash: Bytes -> string)
    requires Faithful(s, from, compress, hash) && Distinct(s)
    requires !Has(s, Key(hash(content), encoding))
    ensures var key := Key(hash(content), encoding);
            var t := s + [Entry(key, compress(content, encoding))];
            Faithful(t, from[key := content], compress, hash) && Distinct(t)
  {
    var key := Key(hash(content), encoding);
    forall e | e in s ensures e.key != key {
      var i :| 0 <= i < |s| && s[i] == e;
    }
  }

  lemma FaithfulPart(s: seq<Entry>, t: seq<Entry>, from: map<Key, Bytes>,
                     compress: (Bytes, Encoding) -> Bytes, hash: Bytes -> string)
    requires Faithful(s, from, compress, hash) && forall e | e in t :: e in s
    ensures Faithful(t, from, compress, hash)
  {
  }

  /** map.get on a Map in insertion order. */
  method Find(s: seq<Entry>, key: Key) returns (found: bool, buf: Bytes)
    ensures found == Has(s, key)
    ensures found ==> Entry(key, buf) in s
  {
    for i := 0 to |s|
      invariant forall j | 0 <= j < i :: s[j].key != key
    {
      if s[i].key == key { return true, s[i].buf; }
    }
    return false, [];
  }

  class StaticCompress {
    const compress: (Bytes, Encoding) -> Bytes
    const hash: Bytes -> string

    var json: seq<Entry>
    var jsonCacheBytes: int
    var html: seq<Entry>
    var files: map<FileKey, Hit>

    // The contents the entries were made from.
    ghost var jsonFrom: map<Key, Bytes>
    ghost var htmlFrom: map<Key, Bytes>
    ghost var filesFrom: map<FileKey, Bytes>

    constructor (compress: (Bytes, Encoding) -> Bytes, hash: Bytes -> string)
      ensures this.compress == compress && this.hash == hash
      ensures Valid() && json == [] && html == [] && files == map[]
    {
      this.compress, this.hash := compress, hash;
      json, jsonCacheBytes, html, files := [], 0, [], map[];
      jsonFrom, htmlFrom, filesFrom := map[], map[], map[];
    }

    ghost predicate JsonValid()
      reads this`json, this`jsonCacheBytes, this`jsonFrom
    {
      && Distinct(json) && Faithful(json, jsonFrom, compress, hash)
      && jsonCacheBytes == Stored(json)
      && (jsonCacheBytes <= JSON_CACHE_MAX_BYTES || |json| == 1)
    }

    ghost predicate HtmlValid()
      reads this`html, this`htmlFrom
    {
      Distinct(html) && Faithful(html, htmlFrom, compress, hash) && |html| <= HTML_CACHE_MAX
    }

    ghost predicate FilesValid()
      reads this`files, this`filesFrom
    {
      forall f | f in files ::
        && f in filesFrom && hash(filesFrom[f]) == files[f].hash
        && files[f].buf == compress(filesFrom[f], f.encoding)
    }

    ghost predicate Valid()
      reads this
    {
      JsonValid() && HtmlValid() && FilesValid()
    }

    /** The eviction loop: the running total stays the sum of the stored lengths. */
    method EvictJson()
      requires jsonCacheBytes == Stored(json)
      modifies this`json, this`jsonCacheBytes
      ensures json == Trim(old(json)) && jsonCacheBytes == Stored(json)
    {
      while jsonCacheBytes > JSON_CACHE_MAX_BYTES && |json| > 1
        invariant jsonCacheBytes == Stored(json) && Trim(json) == Trim(old(json))
        decreases |json|
      {
        jsonCacheBytes := jsonCacheBytes - |json[0].buf|;
        json := json[1..];
      }
    }

    /** The compressed response, kept for the next time when it may be.  The bytes are those of
        this text unless the entry was made from another text with the same hash. */
    method CachedCompress(cacheable: bool, text: Bytes, encoding: Encoding) returns (buf: Bytes)
      requires JsonValid()
      modifies this`json, this`jsonCacheBytes, this`jsonFrom
      ensures JsonValid()
      ensures var key := Key(hash(text), encoding);
              var reused := cacheable && Has(old(json), key);
              && buf == compress(if reused then old(jsonFrom)[key] else text, encoding)
              && (reused ==> hash(old(jsonFrom)[key]) == hash(text))
              && (if cacheable && !reused
                  then json == Trim(old(json) + [Entry(key, buf)]) && jsonFrom == old(jsonFrom)[key := text]
                  else json == old(json) && jsonFrom == old(jsonFrom))
      ensures cacheable ==> Entry(Key(hash(text), encoding), buf) in json
      ensures CollisionFree(hash) ==> buf == compress(text, encoding)
    {
      if !cacheable { return compress(text, encoding); }
      var key := Key(hash(text), encoding);
      var hit, kept := Find(json, key);
      if hit { return kept; }
      buf := compress(text, encoding);
      hide Trim, Stored, Has;
      FaithfulAppend(json, jsonFrom, text, encoding, compress, hash);
      StoredAppend(json, Entry(key, buf));
      ghost var all := json + [Entry(key, buf)];
      TrimFits(all);
      FaithfulPart(all, Trim(all), jsonFrom[key := text], compress, hash);
      json := json + [Entry(key, buf)];
      jsonFrom := jsonFrom[key := text];
      jsonCacheBytes := jsonCacheBytes + |buf|;
      EvictJson();
      assert json[|json| - 1] == Entry(key, buf);
    }

    /** The compressed page, from the page cache or stored in it; the oldest page makes room. */
    method SendHtml(page: Bytes, encoding: Encoding) returns (buf: Bytes)
      requires HtmlValid()
      modifies this`html, this`htmlFrom
      ensures HtmlValid()
      ensures var key := Key(hash(page), encoding);
              var reused := Has(old(html), key);
              && buf == compress(if reused then old(htmlFrom)[key] else page, encoding)
              && (reused ==> hash(old(htmlFrom)[key]) == hash(page))
              && htmlFrom == (if reused then old(htmlFrom) else old(htmlFrom)[key := page])
              && html == (if reused then old(html)
                          else (if |old(html)| < 24 then old(html) else old(html)[1..])
                               + [Entry(key, buf)])
      ensures CollisionFree(hash) ==> buf == compress(page, encoding)
    {
      var key := Key(hash(page), encoding);
      var hit, kept := Find(html, key);
      if hit { return kept; }
      buf := compress(page, encoding);
      if |html| >= HTML_CACHE_MAX {
        html := html[1..];
      }
      assert !Has(html, key);
      FaithfulAppend(html, htmlFrom, page, encoding, compress, hash);
      html := html + [Entry(key, buf)];
      htmlFrom := htmlFrom[key := page];
    }

    /** The compressed file: the cached copy is sent only when the bytes read now have the hash
        of the bytes it was made from. */
    method ServeFile(path: string, raw: Bytes, encoding: Encoding) returns (buf: Bytes)
      requires FilesValid()
      modifies this`files, this`filesFrom
      ensures FilesValid()
      ensures var f := FileKey(path, encoding);
              && (buf == compress(raw, encoding)
                  || (f in old(filesFrom) && old(filesFrom)[f] != raw && hash(old(filesFrom)[f]) == hash(raw)))
              && files == old(files)[f := Hit(hash(raw), buf)]
      ensures CollisionFree(hash) ==> buf == compress(raw, encoding)
    {
      var f := FileKey(path, encoding);
      var h := hash(raw);
      if f !in files || files[f].hash != h {
        files := files[f := Hit(h, compress(raw, encoding))];
        filesFrom := filesFrom[f := raw];
      }
      return files[f].buf;
    }
  }
}
