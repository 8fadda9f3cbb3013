# WarSampo sitemap generator, modelled in Dafny

`generate_sitemap.py` builds the sitemaps of the WarSampo portal
(http://www.sotasampo.fi). The script does five things:

1. It asks a SPARQL endpoint for the URIs of every person. If the answer
   cannot be parsed, it asks again, making at most `retry` attempts, and
   waits ten seconds between attempts. The docstring on line 22 calls
   `retry` the number of retries; the loop of lines 31-41 makes at most
   `retry` attempts, so at most `retry - 1` of them are retries.
2. It turns each URI into the URL of its person page, encoding the URI with
   `quote_plus`.
3. It splits the URL list into `len // 50000 + 1` consecutive pieces with
   `np.array_split`.
4. It writes each piece to `sitemap_generated_<index>.txt`, one URL per line.
5. It writes `sitemap_index.xml`. The index lists the fixed general sitemap
   first, then one `<sitemap>` entry per piece, each stamped with the UTC
   time at which it was written.

The model keeps that structure. There is one module per concern:

- `Fetch` is the retry loop of `do_query` and the extraction of the `uri`
  values.
- `Utf8`, `PercentEncoding` and `Decimal` cover `quote_plus` and the
  formatting of the file index.
- `Chunking` is numpy's `array_split` rule.
- `Text` holds `'\n'.join` and the splitting of a file back into lines.
- `Templates` holds the three templates and a reader for the index document.
- `Generator` is the script's top level.

The endpoint, the clock and the disk are parameters:

- The endpoint is a function from the attempt number to the outcome of that
  attempt: `Malformed`, or `Parsed` with a response.
- The clock is a function from the loop index to the timestamp that
  `utcnow().strftime(...)` yields in that iteration.
- The disk is a map from file name to contents. The writing loop is a method
  over that map. It is proved against the function `WrittenFiles`, and the
  whole output is proved against `Output`.

What the model proves:

- `DoQuery` returns what the retry rule prescribes, after exactly the right
  number of attempts and waits.
- Every page URL decodes back to its URI, and the URL is a single line.
- The pieces concatenate to the URL list, in order. Their sizes follow
  numpy's rule, and no piece has more than 50,000 URLs.
- Reading the chunk files back in index order gives the URL list.
  Decoding those URLs gives the fetched URIs.
- The index document reads back as the general sitemap followed by every
  chunk file with its timestamp, in order.
- Only the chunk files and the index are added to the disk. Every other file
  keeps its contents.

## Model

| member | source | states |
|---|---|---|
| Fetch.ExtractUris | generate_sitemap.py:43 | one URI per result row, in row order, each the row's `uri.value` |
| Fetch.FirstParsed | generate_sitemap.py:31-41 | the first attempt below the limit that parses: it parses and every earlier attempt failed; None only when all attempts failed |
| Fetch.SucceedsAfterFailures | generate_sitemap.py:31-43 | if the first k < retry attempts fail and attempt k parses, the query returns that attempt's URIs |
| Fetch.FailsWhenAllMalformed | generate_sitemap.py:35-41 | if all retry >= 1 attempts fail, the last ValueError is raised |
| Fetch.QueryResult | generate_sitemap.py:30-43 | the reference outcome of `do_query`: `retry = 0` is the `KeyError` of line 43, no parsing attempt among the first `retry` is the re-raised `ValueError`, otherwise the URIs of the first attempt that parses |
| Fetch.DoQuery | generate_sitemap.py:14-43 | the loop's result equals `QueryResult`. A success after k failures takes k + 1 attempts and k waits. Running out of retries takes `retry` attempts, waits between them only, and every attempt failed. `retry = 0` makes no attempt |
| Utf8.EncodeChar | generate_sitemap.py:79 | a character is 1 to 4 bytes; it is a single byte exactly when it is ASCII, and then that byte is the character |
| Utf8.DecodeFirstEncodeChar | generate_sitemap.py:79 | the strict decoder reads the encoding of any character back, whatever bytes follow |
| Utf8.Encode | generate_sitemap.py:79 | the UTF-8 step of `quote_plus`: each character's bytes in order, at least one byte per character; `DecodeEncode` proves it decodes back |
| Utf8.DecodeEncode | generate_sitemap.py:79 | UTF-8 decoding undoes UTF-8 encoding for every string |
| PercentEncoding.HexDigit | generate_sitemap.py:79 | the escape digit is an upper-case hexadecimal digit with the given value |
| PercentEncoding.QuoteByte | generate_sitemap.py:79 | an unreserved byte (A-Z, a-z, 0-9, `_ . - ~`, the set of Python 3.7 and later) stays itself, a space becomes '+', and any other byte becomes '%' and two upper-case hex digits whose value is the byte |
| PercentEncoding.QuoteBytes | generate_sitemap.py:79 | the quoting of a byte string, byte by byte: only unreserved characters, '+' and complete escapes; `UnquoteQuoteBytes` proves it decodes back |
| PercentEncoding.QuotePlus | generate_sitemap.py:79 | `quote_plus` yields only unreserved characters, '+' and complete '%' escapes, and never a line break |
| PercentEncoding.UnquoteFirstQuoteByte | generate_sitemap.py:79 | the first encoded byte is read back, with the number of characters it took |
| PercentEncoding.UnquoteQuoteBytes | generate_sitemap.py:79 | decoding the percent-encoding of any byte string gives the bytes back |
| PercentEncoding.QuoteByteUnquoteFirst | generate_sitemap.py:79 | the characters the decoder takes for one byte are exactly `quote_plus`'s encoding of that byte, so it never accepts lower-case or needless escapes |
| PercentEncoding.QuoteUnquoteBytes | generate_sitemap.py:79 | any text the decoder accepts is the percent-encoding of the bytes it yields; with `UnquoteQuoteBytes`, the decoder accepts exactly the encodings |
| PercentEncoding.UnquoteQuotePlus | generate_sitemap.py:79 | decoding `quote_plus(s)` gives s back for every string s |
| PercentEncoding.QuotePlusInjective | generate_sitemap.py:79 | distinct URIs have distinct encodings |
| Decimal.NatToString | generate_sitemap.py:86 | the formatted index is a non-empty string of digits without a leading zero |
| Decimal.ParseNatToString | generate_sitemap.py:86 | the formatted index reads back as the index |
| Decimal.NatToStringInjective | generate_sitemap.py:86 | distinct indices are formatted differently |
| Generator.ResourceUrl | generate_sitemap.py:75-79 | the page URL decodes back to its URI; it is non-empty and holds no line break |
| Generator.ResourceUrls | generate_sitemap.py:79 | one URL per URI, in the same order |
| Generator.ResourceUrlInjective | generate_sitemap.py:75-79 | distinct URIs give distinct page URLs |
| Generator.UrisOfResourceUrls | generate_sitemap.py:79 | decoding the URL list gives back exactly the URI list |
| Chunking.ChunkCount | generate_sitemap.py:80 | `len // 50000 + 1` is at least 1, and is the k with (k-1)·50000 <= len < k·50000 |
| Chunking.SectionSizes | generate_sitemap.py:80 | numpy's sizes: k sizes that add up to the length, where size i is q + 1 when i < len mod k and q otherwise, with q = len div k |
| Chunking.Cut | generate_sitemap.py:80 | consecutive pieces with exactly the given sizes that concatenate to the input |
| Chunking.ArraySplit | generate_sitemap.py:80 | `array_split` gives k pieces that concatenate to the input, in order |
| Chunking.ArraySplitSizes | generate_sitemap.py:80 | the first len mod k pieces have len div k + 1 elements and the others len div k |
| Chunking.Chunks | generate_sitemap.py:80 | `len // 50000 + 1` pieces that concatenate to the URL list |
| Chunking.ChunkSizesBalanced | generate_sitemap.py:80 | piece sizes differ by at most one, and the longer pieces come first |
| Chunking.ChunkSizesBounded | generate_sitemap.py:80 | no piece has more than 50,000 URLs |
| Chunking.ChunksNonEmpty | generate_sitemap.py:80 | a non-empty URL list gives only non-empty pieces |
| Chunking.EmptyGivesOneEmptyChunk | generate_sitemap.py:80 | no URIs still give one, empty, piece, so one empty file is written |
| Chunking.BoundReached | generate_sitemap.py:80 | 99,999 URLs give pieces of 50,000 and 49,999, so the 50,000 bound is reached |
| Text.Join | generate_sitemap.py:88 | joining no URLs gives the empty file; joining one gives that URL |
| Text.Split | generate_sitemap.py:88 | reading a file's lines gives at least one line, none of which holds the separator |
| Text.SplitJoin | generate_sitemap.py:88 | splitting the joined text gives back the pieces, when no piece holds the separator |
| Text.JoinSplit | generate_sitemap.py:88 | joining the split text gives back the text |
| Templates.FileName | generate_sitemap.py:62 | `SITEMAP_FILENAME.format(index=index)`; `FileNameInjective` and `FileNameHasNoTag` prove its properties |
| Templates.FileNameInjective | generate_sitemap.py:85-96 | distinct indices give distinct chunk file names, and no chunk file name is `sitemap_index.xml` or `sitemap_general.txt` |
| Templates.FileNameHasNoTag | generate_sitemap.py:86-90 | a chunk file name holds no '<' |
| Templates.Entry | generate_sitemap.py:56-60 | `SITEMAP_INNER_XML` with `{file}` and `{lastmod}` filled in; `ParseEntryOf` proves it reads back as its file and date |
| Templates.Entries | generate_sitemap.py:90 | the `sitemaps +=` accumulation: the entries one after the other; `ParseEntriesOf` proves it reads back as the listing |
| Templates.IndexXml | generate_sitemap.py:46-54 | `SITEMAP_INDEX_XML.format(sitemaps=...)`; `ParseIndexXml` proves it reads back as the general entry followed by the listing |
| Templates.EntriesAppend | generate_sitemap.py:90 | appending a chunk file appends its entry to `sitemaps` |
| Templates.SpanNot | generate_sitemap.py:56-60 | splits a text at the first '<': the prefix holds no '<' and the two parts make up the text |
| Templates.ParseEntryOf | generate_sitemap.py:56-60 | an inner entry whose file and date hold no '<' is read back as that file and date, whatever follows |
| Templates.ParseEntriesOf | generate_sitemap.py:56-60 | the concatenated entries are read back as the listing |
| Templates.ParseGeneralEntry | generate_sitemap.py:46-51 | the general entry of the index template has the shape of an inner entry and is read back as (`sitemap_general.txt`, `2017-01-16`) |
| Templates.ParseIndexXml | generate_sitemap.py:46-54 | the index document reads back as the general sitemap followed by the given entries, in order |
| Generator.Listing | generate_sitemap.py:85-90 | entry i of the listing is chunk file i with the timestamp of iteration i |
| Generator.WrittenFiles | generate_sitemap.py:85-88 | the reference disk after the first n chunk writes; its three lemmas below give its keys, the chunk files' contents and the other files |
| Generator.WrittenFilesKeys | generate_sitemap.py:85-88 | writing the chunks adds exactly the chunk file names to the disk |
| Generator.WrittenFilesChunks | generate_sitemap.py:85-88 | after the loop, file i holds chunk i joined by line breaks; no later write overwrites it |
| Generator.WrittenFilesKeepsOthers | generate_sitemap.py:85-88 | a file that is not a chunk file keeps its contents |
| Generator.WriteChunkFiles | generate_sitemap.py:81-90 | the loop leaves the disk as `WrittenFiles` of all chunks, and `sitemaps` holds one entry per chunk, in index order, stamped with that iteration's time |
| Generator.LinesJoin | generate_sitemap.py:88 | a chunk of non-empty, single-line URLs is read back from its file exactly |
| Generator.ReadUrlsOfChunks | generate_sitemap.py:85-88 | reading the first n chunk files gives the first n chunks' URLs in order |
| Generator.ChunksOfUrlsSingleLine | generate_sitemap.py:79-80 | every URL in every piece is non-empty and a single line |
| Generator.Output | generate_sitemap.py:85-96 | the reference disk after the loop and the index write; the lemmas below give its keys, chunk files, other files and read-back |
| Generator.OutputKeys | generate_sitemap.py:85-96 | the run adds exactly the chunk files and `sitemap_index.xml` to the disk |
| Generator.OutputStoresChunks | generate_sitemap.py:85-96 | writing the index leaves every chunk file holding its chunk |
| Generator.OutputKeepsOthers | generate_sitemap.py:85-96 | a file that is neither a chunk file nor the index keeps its contents |
| Generator.OutputReadsBack | generate_sitemap.py:85-96 | the chunk files of the output exist and read back as all URLs of the chunks, in order |
| Generator.Published | generate_sitemap.py:79-96 | the reference disk for the fetched URIs: `Output` of the chunks of their page URLs; `PublishedReadsBack` and `PublishedIndexListsChunks` give its meaning |
| Generator.Publish | generate_sitemap.py:79-96 | building, splitting and writing leaves the disk as `Published` for the fetched URIs |
| Generator.PublishedReadsBack | generate_sitemap.py:79-96 | reading the chunk files back gives exactly the URL list, and decoding it gives exactly the fetched URIs |
| Generator.PublishedIndexListsChunks | generate_sitemap.py:90-96 | when no timestamp holds '<', `sitemap_index.xml` reads back as the general sitemap and then every chunk file with its timestamp, in index order |
| Generator.Generate | generate_sitemap.py:79-96 | a failed query raises its error and writes nothing; a successful one publishes the fetched URIs |

## Left out

- The SPARQL endpoint, the query text and the HTTP exchange are not modelled. Each attempt is an input: either a parse failure (`ValueError`) or a parsed response.
- Fetch.DoQuery: any other exception from `sparql.query()`, such as an HTTP or network error, is not modelled. The `except ValueError` of line 35 does not catch it, so it would leave the loop at once, without a retry.
- The ten-second `sleep` and the message printed before it are counted as `waits` and are not performed.
- `datetime.utcnow().strftime(...)` is an input: a function from the loop index to the timestamp string. Its format is not modelled.
- Opening and writing files is an update of a map from file name to contents. I/O errors, encodings on disk and partial writes are not modelled.
- Fetch.DoQuery: requires `retry >= 0`. With a negative `retry`, `while retry` keeps running until an attempt parses, so a run may never end. The script always passes the default 10.
- Fetch.ExtractUris: a result row without `uri` or `value` (a `KeyError` while iterating) is not modelled. Every row carries the selected variable.
- Rows are not read lazily. The generator of line 43 is consumed right away by the list comprehension of line 79, so nothing happens in between.
- Chunking.ArraySplit: requires `k >= 1`. numpy raises `ValueError` for k = 0, which `len // 50000 + 1` never gives.
- `array_split` returns numpy arrays of strings; the model uses sequences of strings.
- PercentEncoding.UnquotePlus: a strict inverse of `quote_plus`, not Python's lenient `unquote_plus`. At the byte level, `UnquoteBytes` rejects lower-case escapes, escapes of unreserved bytes or of a space, reserved characters and incomplete escapes. `QuoteUnquoteBytes` proves it accepts nothing else than `QuoteBytes` output. Python's `unquote_plus` accepts all of these and turns invalid UTF-8 into replacement characters. At the string level, only `UnquotePlus(QuotePlus(s)) == Some(s)` is proved, not the converse.
- Utf8.Decode: rejects overlong forms and surrogates, as a strict UTF-8 decoder does. Dafny's `char` holds Unicode scalar values, so lone surrogates in Python strings cannot be represented.
- Generator.PublishedIndexListsChunks: requires timestamps free of '<'. The reader splits each entry at '<', so a timestamp with '<' could not be read back. `strftime("%Y-%m-%dT%H:%M:%SZ")` never yields one.
- The comment on line 80 says "chunks of less than 50000 URIs", but the bound is not strict: `Chunking.BoundReached` shows a piece of exactly 50,000 URLs. The sitemaps.org limit is 50,000 inclusive, so the code is still within the protocol.
