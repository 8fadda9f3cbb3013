/**
 * The script's top level: fetch the person URIs, turn each into a page URL,
 * split the URLs into chunks, write one text file per chunk and finally the
 * sitemap index. The disk is a map from file name to contents; `clock(i)` is
 * the timestamp the i-th call of `datetime.utcnow().strftime(...)` gives.
 */
module Generator {
  import opened Wrappers
  import opened Text
  import opened PercentEncoding
  import opened Fetch
  import opened Chunking
  import opened Templates

  const ResourceUrlPrefix := "http://www.sotasampo.fi/fi/persons/?uri="

  /** The URI a page URL stands for: the decoding of what follows the prefix. */
  function UriOfUrl(url: string): Option<string>
  {
    if StartsWith(url, ResourceUrlPrefix) then UnquotePlus(url[|ResourceUrlPrefix|..])
    else None
  }

  /**
   * `RESOURCE_URL.format(uri=quote_plus(uri))`: the fixed prefix and then the
   * encoded URI, so that the URL decodes back to the URI. No URL is empty or
   * holds a line break.
   */
  function ResourceUrl(uri: string): (url: string)
    ensures UriOfUrl(url) == Some(uri)
    ensures url != [] && '\n' !in url
  {
    var encoded := QuotePlus(uri);
    UnquoteQuotePlus(uri);
    UriOfPrefixed(encoded);
    PrefixSingleLine();
    ResourceUrlPrefix + encoded
  }

  lemma PrefixSingleLine()
    ensures '\n' !in ResourceUrlPrefix
  {
  }

  /** A URL made of the prefix and an encoded text stands for the decoding of that text. */
  lemma UriOfPrefixed(encoded: string)
    ensures UriOfUrl(ResourceUrlPrefix + encoded) == UnquotePlus(encoded)
  {
    assert (ResourceUrlPrefix + encoded)[..|ResourceUrlPrefix|] == ResourceUrlPrefix;
    assert (ResourceUrlPrefix + encoded)[|ResourceUrlPrefix|..] == encoded;
  }

  /** The list comprehension of line 79: one URL per URI, in the same order. */
  function ResourceUrls(uris: seq<string>): (urls: seq<string>)
    ensures |urls| == |uris|
    ensures forall j :: 0 <= j < |uris| ==> urls[j] == ResourceUrl(uris[j])
    decreases |uris|
  {
    if uris == [] then [] else [ResourceUrl(uris[0])] + ResourceUrls(uris[1..])
  }

  /** Distinct URIs give distinct URLs. */
  lemma ResourceUrlInjective(uri: string, uri': string)
    ensures ResourceUrl(uri) == ResourceUrl(uri') ==> uri == uri'
  {
  }

  /** The names of the first n chunk files. */
  function ChunkFileNames(n: nat): set<string>
  {
    set i: nat | i < n :: FileName(i)
  }

  /** The next chunk file name is new. */
  lemma ChunkFileNamesStep(n: nat)
    ensures ChunkFileNames(n + 1) == ChunkFileNames(n) + {FileName(n)}
    ensures FileName(n) !in ChunkFileNames(n)
    ensures forall i :: 0 <= i < n ==> FileName(i) != FileName(n)
  {
    forall i | 0 <= i < n {
      FileNameInjective(i, n);
    }
  }

  /** The (file, lastmod) pairs of the first n chunk files, in index order. */
  function Listing(n: nat, clock: nat -> string): (listing: seq<(string, string)>)
    ensures |listing| == n
    ensures forall i :: 0 <= i < n ==> listing[i] == (FileName(i), clock(i))
    decreases n
  {
    if n == 0 then [] else Listing(n - 1, clock) + [(FileName(n - 1), clock(n - 1))]
  }

  /**
   * The disk after the first n chunks are written over it, in index order:
   * chunk i, its URLs joined by line breaks, goes to `FileName(i)`.
   */
  function WrittenFiles(disk: map<string, string>, chunks: seq<seq<string>>, n: nat): map<string, string>
    requires n <= |chunks|
    decreases n
  {
    if n == 0 then disk
    else WrittenFiles(disk, chunks, n - 1)[FileName(n - 1) := Join(chunks[n - 1], '\n')]
  }

  lemma WrittenFilesStep(disk: map<string, string>, chunks: seq<seq<string>>, n: nat)
    requires n < |chunks|
    ensures WrittenFiles(disk, chunks, n + 1) == WrittenFiles(disk, chunks, n)[FileName(n) := Join(chunks[n], '\n')]
  {
  }

  /** Writing the chunks adds exactly the chunk file names. */
  lemma {:induction false} WrittenFilesKeys(disk: map<string, string>, chunks: seq<seq<string>>, n: nat)
    requires n <= |chunks|
    ensures WrittenFiles(disk, chunks, n).Keys == disk.Keys + ChunkFileNames(n)
    decreases n
  {
    if n > 0 {
      WrittenFilesKeys(disk, chunks, n - 1);
      ChunkFileNamesStep(n - 1);
    }
  }

  /** Every chunk file holds its chunk: no later write lands on an earlier name. */
  lemma {:induction false} WrittenFilesChunks(disk: map<string, string>, chunks: seq<seq<string>>, n: nat)
    requires n <= |chunks|
    ensures forall i :: 0 <= i < n ==>
      FileName(i) in WrittenFiles(disk, chunks, n) && WrittenFiles(disk, chunks, n)[FileName(i)] == Join(chunks[i], '\n')
    decreases n
  {
    if n > 0 {
      WrittenFilesChunks(disk, chunks, n - 1);
      ChunkFileNamesStep(n - 1);
    }
  }

  /** A file that is not a chunk file keeps its contents. */
  lemma {:induction false} WrittenFilesKeepsOthers(disk: map<string, string>, chunks: seq<seq<string>>, n: nat, name: string)
    requires n <= |chunks|
    requires name in disk && name !in ChunkFileNames(n)
    ensures name in WrittenFiles(disk, chunks, n) && WrittenFiles(disk, chunks, n)[name] == disk[name]
    decreases n
  {
    if n > 0 {
      ChunkFileNamesStep(n - 1);
      WrittenFilesKeepsOthers(disk, chunks, n - 1, name);
    }
  }

  /** One more chunk file adds its entry at the end of the index entries. */
  lemma SitemapsStep(n: nat, clock: nat -> string)
    ensures Entries(Listing(n + 1, clock)) == Entries(Listing(n, clock)) + Entry(FileName(n), clock(n))
  {
    EntriesAppend(Listing(n, clock), FileName(n), clock(n));
  }

  /**
   * The loop of lines 85-90: the disk ends up as `WrittenFiles` of all the
   * chunks, and `sitemaps` collects one index entry per chunk, in index order.
   */
  method WriteChunkFiles(chunks: seq<seq<string>>, clock: nat -> string, disk: map<string, string>)
    returns (files: map<string, string>, sitemaps: string)
    ensures files == WrittenFiles(disk, chunks, |chunks|)
    ensures sitemaps == Entries(Listing(|chunks|, clock))
  {
    files, sitemaps := disk, "";
    var index := 0;
    while index < |chunks|
      invariant 0 <= index <= |chunks|
      invariant files == WrittenFiles(disk, chunks, index)
      invariant sitemaps == Entries(Listing(index, clock))
    {
      var filename := FileName(index);
      WrittenFilesStep(disk, chunks, index);
      files := files[filename := Join(chunks[index], '\n')];
      SitemapsStep(index, clock);
      sitemaps := sitemaps + Entry(filename, clock(index));
      index := index + 1;
    }
  }

  /** The URLs a text file lists, one per line; an empty file lists none. */
  function Lines(content: string): seq<string>
  {
    if content == "" then [] else Split(content, '\n')
  }

  /** All URLs the first n chunk files list, in index order. */
  function ReadUrls(files: map<string, string>, n: nat): seq<string>
    requires forall i: nat :: i < n ==> FileName(i) in files
    decreases n
  {
    if n == 0 then [] else ReadUrls(files, n - 1) + Lines(files[FileName(n - 1)])
  }

  /** A chunk of non-empty, line-break-free URLs is read back from its file exactly. */
  lemma LinesJoin(chunk: seq<string>)
    requires forall j :: 0 <= j < |chunk| ==> chunk[j] != "" && '\n' !in chunk[j]
    ensures Lines(Join(chunk, '\n')) == chunk
  {
    if chunk != [] {
      assert Join(chunk, '\n') != "" by {
        if |chunk| > 1 {
          assert |Join(chunk, '\n')| >= |chunk[0]|;
        }
      }
      SplitJoin(chunk, '\n');
    }
  }

  /** Every URL in the chunks is non-empty and free of line breaks. */
  predicate SingleLineUrls(chunks: seq<seq<string>>)
  {
    forall i, j :: 0 <= i < |chunks| && 0 <= j < |chunks[i]| ==> chunks[i][j] != "" && '\n' !in chunks[i][j]
  }

  /** The files hold the chunks, each joined by line breaks. */
  predicate StoresChunks(files: map<string, string>, chunks: seq<seq<string>>)
  {
    forall i: nat :: i < |chunks| ==> FileName(i) in files && files[FileName(i)] == Join(chunks[i], '\n')
  }

  /**
   * Files that hold the chunks, joined by line breaks, read back as all the
   * chunks' URLs in index order.
   */
  lemma {:induction false} ReadUrlsOfChunks(files: map<string, string>, chunks: seq<seq<string>>, n: nat)
    requires n <= |chunks| && StoresChunks(files, chunks) && SingleLineUrls(chunks)
    ensures ReadUrls(files, n) == Flatten(chunks[..n])
    decreases n
  {
    if n > 0 {
      var last := chunks[n - 1];
      ReadUrlsOfChunks(files, chunks, n - 1);
      assert files[FileName(n - 1)] == Join(last, '\n');
      assert ReadUrls(files, n) == ReadUrls(files, n - 1) + Lines(Join(last, '\n'));
      assert forall j :: 0 <= j < |last| ==> last[j] != "" && '\n' !in last[j];
      LinesJoin(last);
      TakeLast(chunks, n);
      FlattenAppend(chunks[..n - 1], last);
    }
  }

  /** Every element of a piece is an element of the flattened list. */
  lemma {:induction false} InFlatten<T>(xss: seq<seq<T>>, i: nat, j: nat)
    requires i < |xss| && j < |xss[i]|
    ensures xss[i][j] in Flatten(xss)
    decreases i
  {
    if i > 0 {
      InFlatten(xss[1..], i - 1, j);
    }
  }

  /** The chunks of the URL list hold only non-empty, single-line URLs. */
  lemma ChunksOfUrlsSingleLine(uris: seq<string>)
    ensures SingleLineUrls(Chunks(ResourceUrls(uris)))
  {
    var urls := ResourceUrls(uris);
    var chunks := Chunks(urls);
    forall i, j | 0 <= i < |chunks| && 0 <= j < |chunks[i]|
      ensures chunks[i][j] != "" && '\n' !in chunks[i][j]
    {
      InFlatten(chunks, i, j);
    }
  }

  /** The URIs of a list of page URLs, or None if one of them is not such a URL. */
  function UrisOfUrls(urls: seq<string>): Option<seq<string>>
    decreases |urls|
  {
    if urls == [] then Some([])
    else match (UriOfUrl(urls[0]), UrisOfUrls(urls[1..]))
      case (Some(uri), Some(rest)) => Some([uri] + rest)
      case _ => None
  }

  lemma UrisOfUrlsCons(url: string, urls: seq<string>, uri: string, rest: seq<string>)
    requires UriOfUrl(url) == Some(uri) && UrisOfUrls(urls) == Some(rest)
    ensures UrisOfUrls([url] + urls) == Some([uri] + rest)
  {
    assert ([url] + urls)[1..] == urls;
  }

  /** The URL list decodes back to the URI list. */
  lemma {:induction false} UrisOfResourceUrls(uris: seq<string>)
    ensures UrisOfUrls(ResourceUrls(uris)) == Some(uris)
    decreases |uris|
  {
    if uris != [] {
      var rest := uris[1..];
      UrisOfResourceUrls(rest);
      UrisOfUrlsCons(ResourceUrl(uris[0]), ResourceUrls(rest), uris[0], rest);
      assert [uris[0]] + rest == uris;
    }
  }

  /**
   * The disk after lines 81-96: the chunk files written over it and then the
   * index of the chunk files.
   */
  function Output(disk: map<string, string>, chunks: seq<seq<string>>, clock: nat -> string): map<string, string>
  {
    WrittenFiles(disk, chunks, |chunks|)[IndexFileName := IndexXml(Entries(Listing(|chunks|, clock)))]
  }

  /** The run adds exactly the chunk files and the index to the disk. */
  lemma OutputKeys(disk: map<string, string>, chunks: seq<seq<string>>, clock: nat -> string)
    ensures Output(disk, chunks, clock).Keys == disk.Keys + ChunkFileNames(|chunks|) + {IndexFileName}
  {
    WrittenFilesKeys(disk, chunks, |chunks|);
  }

  /** Writing the index leaves every chunk file holding its chunk. */
  lemma OutputStoresChunks(disk: map<string, string>, chunks: seq<seq<string>>, clock: nat -> string)
    ensures StoresChunks(Output(disk, chunks, clock), chunks)
  {
    WrittenFilesChunks(disk, chunks, |chunks|);
    forall i: nat | i < |chunks| ensures FileName(i) != IndexFileName {
      FileNameInjective(i, 0);
    }
  }

  /** A file that is neither a chunk file nor the index keeps its contents. */
  lemma OutputKeepsOthers(disk: map<string, string>, chunks: seq<seq<string>>, clock: nat -> string, name: string)
    requires name in disk && name !in ChunkFileNames(|chunks|) && name != IndexFileName
    ensures name in Output(disk, chunks, clock) && Output(disk, chunks, clock)[name] == disk[name]
  {
    WrittenFilesKeepsOthers(disk, chunks, |chunks|, name);
  }

  /** The chunk files of the output read back as all the chunks' URLs, in order. */
  lemma OutputReadsBack(disk: map<string, string>, chunks: seq<seq<string>>, clock: nat -> string)
    requires SingleLineUrls(chunks)
    ensures forall i: nat :: i < |chunks| ==> FileName(i) in Output(disk, chunks, clock)
    ensures ReadUrls(Output(disk, chunks, clock), |chunks|) == Flatten(chunks)
  {
    OutputStoresChunks(disk, chunks, clock);
    ReadUrlsOfChunks(Output(disk, chunks, clock), chunks, |chunks|);
    assert chunks[..|chunks|] == chunks;
  }

  /** What lines 79-96 leave on disk for the fetched URIs. */
  function Published(disk: map<string, string>, uris: seq<string>, clock: nat -> string): map<string, string>
  {
    Output(disk, Chunks(ResourceUrls(uris)), clock)
  }

  /**
   * Lines 79-96 for the fetched URIs: build the URLs, split them, write the
   * chunk files and then the index.
   */
  method Publish(uris: seq<string>, clock: nat -> string, disk: map<string, string>) returns (files: map<string, string>)
    ensures files == Published(disk, uris, clock)
  {
    var urls := ResourceUrls(uris);
    var chunks := ArraySplit(urls, |urls| / MaxUrlsPerFile + 1);
    assert chunks == Chunks(urls);
    var written, sitemaps := WriteChunkFiles(chunks, clock, disk);
    files := written[IndexFileName := IndexXml(sitemaps)];
  }

  /**
   * Reading the chunk files in index order gives back exactly the URL list,
   * and decoding those URLs gives back exactly the URI list.
   */
  lemma PublishedReadsBack(disk: map<string, string>, uris: seq<string>, clock: nat -> string)
    ensures var files, k := Published(disk, uris, clock), |Chunks(ResourceUrls(uris))|;
      && (forall i: nat :: i < k ==> FileName(i) in files)
      && ReadUrls(files, k) == ResourceUrls(uris)
      && UrisOfUrls(ReadUrls(files, k)) == Some(uris)
  {
    ChunksOfUrlsSingleLine(uris);
    OutputReadsBack(disk, Chunks(ResourceUrls(uris)), clock);
    UrisOfResourceUrls(uris);
  }

  /**
   * When no timestamp holds '<', the index reads back as the general sitemap
   * followed by every chunk file with its timestamp, in index order.
   */
  lemma PublishedIndexListsChunks(disk: map<string, string>, uris: seq<string>, clock: nat -> string)
    requires forall i: nat :: '<' !in clock(i)
    ensures IndexFileName in Published(disk, uris, clock)
    ensures ParseIndex(Published(disk, uris, clock)[IndexFileName])
      == Some([(GeneralFileName, GeneralLastmod)] + Listing(|Chunks(ResourceUrls(uris))|, clock))
  {
    var listing := Listing(|Chunks(ResourceUrls(uris))|, clock);
    forall i | 0 <= i < |listing| ensures '<' !in listing[i].0 && '<' !in listing[i].1 {
      FileNameHasNoTag(i);
    }
    ParseIndexXml(listing);
  }

  /**
   * The whole run. When the query fails, its error is raised and nothing is
   * written; otherwise the fetched URIs are published.
   */
  method Generate(endpoint: nat -> Attempt, clock: nat -> string, disk: map<string, string>)
    returns (files: map<string, string>, err: Option<QueryError>)
    ensures QueryResult(endpoint, DefaultRetry).Failure? ==>
      err == Some(QueryResult(endpoint, DefaultRetry).error) && files == disk
    ensures QueryResult(endpoint, DefaultRetry).Success? ==>
      err == None && files == Published(disk, QueryResult(endpoint, DefaultRetry).value, clock)
  {
    var result, attempts, waits := DoQuery(endpoint, DefaultRetry);
    if result.Failure? {
      return disk, Some(result.error);
    }
    files := Publish(result.value, clock, disk);
    err := None;
  }
}
