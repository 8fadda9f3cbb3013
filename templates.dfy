/**
 * The fixed texts of the script: the chunk file names, the `<sitemap>` entry
 * of the index and the index document around the entries. `ParseIndex`
 * reads an index document back into its (file, lastmod) entries.
 */
module Templates {
  import opened Wrappers
  import opened Decimal
  import opened Text

  const SiteRoot := "http://www.sotasampo.fi/"

  /** `SITEMAP_FILENAME.format(index=index)` */
  function FileName(index: nat): (name: string)
  {
    "sitemap_generated_" + NatToString(index) + ".txt"
  }

  const IndexFileName := "sitemap_index.xml"

  /** The general sitemap the index always lists first, with its fixed date. */
  const GeneralFileName := "sitemap_general.txt"
  const GeneralLastmod := "2017-01-16"

  /** Distinct indices give distinct chunk file names, none of them the index file's. */
  lemma FileNameInjective(i: nat, j: nat)
    ensures FileName(i) == FileName(j) ==> i == j
    ensures FileName(i) != IndexFileName && FileName(i) != GeneralFileName
  {
    var prefix := "sitemap_generated_";
    if FileName(i) == FileName(j) {
      var a, b := NatToString(i), NatToString(j);
      assert |a| == |b|;
      assert a == FileName(i)[|prefix|..|prefix| + |a|];
      assert b == FileName(j)[|prefix|..|prefix| + |b|];
      NatToStringInjective(i, j);
    }
    assert FileName(i)[8] == 'g' && IndexFileName[8] == 'i' && GeneralFileName[8] == 'g';
    assert FileName(i)[9] == 'e' && GeneralFileName[9] == 'e';
    assert FileName(i)[10] == 'n' && GeneralFileName[10] == 'n';
    assert FileName(i)[11] == 'e' && GeneralFileName[11] == 'e';
    assert FileName(i)[12] == 'r' && GeneralFileName[12] == 'r';
    assert FileName(i)[13] == 'a' && GeneralFileName[13] == 'a';
    assert FileName(i)[14] == 't' && GeneralFileName[14] == 'l';
  }

  /** A chunk file name holds no '<', so it cannot end a `<loc>` element early. */
  lemma FileNameHasNoTag(index: nat)
    ensures '<' !in FileName(index)
  {
    var digits := NatToString(index);
    assert '<' !in "sitemap_generated_" && '<' !in ".txt";
    assert '<' !in digits by {
      assert forall k :: 0 <= k < |digits| ==> IsDigit(digits[k]);
    }
  }

  /** The three fixed pieces of `SITEMAP_INNER_XML` around its `{file}` and `{lastmod}` holes. */
  const EntryOpen := "   <sitemap>\n      <loc>" + SiteRoot
  const EntryMiddle := "</loc>\n      <lastmod>"
  const EntryClose := "</lastmod>\n   </sitemap>\n"

  /** `SITEMAP_INNER_XML.format(file=file, lastmod=lastmod)` */
  function Entry(file: string, lastmod: string): string
  {
    EntryOpen + file + EntryMiddle + lastmod + EntryClose
  }

  /** The entries of a list of (file, lastmod) pairs, one after the other. */
  function Entries(listing: seq<(string, string)>): string
    decreases |listing|
  {
    if listing == [] then "" else Entry(listing[0].0, listing[0].1) + Entries(listing[1..])
  }

  /** Appending one pair to the listing appends its entry to the text. */
  lemma {:induction false} EntriesAppend(listing: seq<(string, string)>, file: string, lastmod: string)
    ensures Entries(listing + [(file, lastmod)]) == Entries(listing) + Entry(file, lastmod)
    decreases |listing|
  {
    if listing == [] {
      assert listing + [(file, lastmod)] == [(file, lastmod)];
    } else {
      assert (listing + [(file, lastmod)])[1..] == listing[1..] + [(file, lastmod)];
      EntriesAppend(listing[1..], file, lastmod);
    }
  }

  /** What comes before the general entry: the XML declaration and the opening `<sitemapindex>`. */
  const IndexProlog := "<?xml version=\"1.0\" encoding=\"UTF-8\"?>\n"
                       + "<sitemapindex xmlns=\"http://www.sitemaps.org/schemas/sitemap/0.9\">\n"
  /** The indentation before the `{sitemaps}` hole. */
  const IndexIndent := "   "
  /** What follows the `{sitemaps}` hole. */
  const IndexEpilog := "\n</sitemapindex>\n"

  /**
   * `SITEMAP_INDEX_XML.format(sitemaps=sitemaps)`. The template's fixed
   * general entry has exactly the shape of an inner entry.
   */
  function IndexXml(sitemaps: string): string
  {
    IndexProlog + (Entry(GeneralFileName, GeneralLastmod) + (IndexIndent + sitemaps + IndexEpilog))
  }

  /** The length of the longest prefix of s without the character c. */
  function SpanLength(s: string, c: char): (n: nat)
    ensures n <= |s|
    ensures forall i :: 0 <= i < n ==> s[i] != c
    ensures n < |s| ==> s[n] == c
    decreases |s|
  {
    if s == [] || s[0] == c then 0 else 1 + SpanLength(s[1..], c)
  }

  /** The longest prefix of s without the character c, and what follows it. */
  function SpanNot(s: string, c: char): (r: (string, string))
    ensures r.0 + r.1 == s && c !in r.0
    ensures r.1 != [] ==> r.1[0] == c
  {
    var n := SpanLength(s, c);
    (s[..n], s[n..])
  }

  lemma {:induction false} SpanLengthPrefix(x: string, c: char, t: string)
    requires c !in x && StartsWith(t, [c])
    ensures SpanLength(x + t, c) == |x|
    decreases |x|
  {
    if x != [] {
      assert (x + t)[1..] == x[1..] + t;
      SpanLengthPrefix(x[1..], c, t);
    } else {
      assert x + t == t;
    }
  }

  lemma SpanNotPrefix(x: string, c: char, t: string)
    requires c !in x && StartsWith(t, [c])
    ensures SpanNot(x + t, c) == (x, t)
  {
    SpanLengthPrefix(x, c, t);
    DropPrefix(x, t);
  }

  /** Reads one entry from the start of s: its file, its lastmod and what follows; None if s does not start with an entry. */
  function ParseEntry(s: string): (r: Option<(string, string, string)>)
    ensures r.Some? ==> |r.value.2| < |s|
  {
    if !StartsWith(s, EntryOpen) then None
    else
      var (file, afterFile) := SpanNot(s[|EntryOpen|..], '<');
      if !StartsWith(afterFile, EntryMiddle) then None
      else
        var (lastmod, afterLastmod) := SpanNot(afterFile[|EntryMiddle|..], '<');
        if !StartsWith(afterLastmod, EntryClose) then None
        else Some((file, lastmod, afterLastmod[|EntryClose|..]))
  }

  /** Reads a sequence of entries that makes up all of s. */
  function ParseEntries(s: string): (r: Option<seq<(string, string)>>)
    decreases |s|
  {
    if s == [] then Some([])
    else match ParseEntry(s)
      case None => None
      case Some((file, lastmod, rest)) =>
        match ParseEntries(rest)
        case None => None
        case Some(listing) => Some([(file, lastmod)] + listing)
  }

  /** Reads an index document back into the list of (file, lastmod) entries it holds. */
  function ParseIndex(text: string): (r: Option<seq<(string, string)>>)
  {
    if !StartsWith(text, IndexProlog) then None
    else match ParseEntry(text[|IndexProlog|..])
      case None => None
      case Some((file, lastmod, rest)) =>
        match ParseIndexTail(rest)
        case None => None
        case Some(listing) => Some([(file, lastmod)] + listing)
  }

  /** Reads what follows the first entry: the indentation, the entries and the closing tag. */
  function ParseIndexTail(rest: string): (r: Option<seq<(string, string)>>)
  {
    if !StartsWith(rest, IndexIndent) || |rest| < |IndexIndent| + |IndexEpilog|
       || rest[|rest| - |IndexEpilog|..] != IndexEpilog
    then None
    else ParseEntries(rest[|IndexIndent|..|rest| - |IndexEpilog|])
  }

  /** An entry whose file and lastmod hold no '<' is read back, whatever follows. */
  lemma ParseEntryOf(file: string, lastmod: string, rest: string)
    requires '<' !in file && '<' !in lastmod
    ensures ParseEntry(Entry(file, lastmod) + rest) == Some((file, lastmod, rest))
  {
    var afterLastmod := EntryClose + rest;
    var afterMiddle := lastmod + afterLastmod;
    var afterFile := EntryMiddle + afterMiddle;
    var afterOpen := file + afterFile;
    Reassociate(EntryOpen, file, EntryMiddle, lastmod, EntryClose, rest);
    DropPrefix(EntryOpen, afterOpen);
    DropPrefix(EntryMiddle, afterMiddle);
    DropPrefix(EntryClose, rest);
    SpanNotPrefix(file, '<', afterFile);
    SpanNotPrefix(lastmod, '<', afterLastmod);
  }

  lemma ParseEntriesCons(s: string, entry: (string, string), rest: string, listing: seq<(string, string)>)
    requires ParseEntry(s) == Some((entry.0, entry.1, rest)) && ParseEntries(rest) == Some(listing)
    ensures ParseEntries(s) == Some([entry] + listing)
  {
  }

  /** The entries of a listing whose names and dates hold no '<' are read back as that listing. */
  lemma {:induction false} ParseEntriesOf(listing: seq<(string, string)>)
    requires forall i :: 0 <= i < |listing| ==> '<' !in listing[i].0 && '<' !in listing[i].1
    ensures ParseEntries(Entries(listing)) == Some(listing)
    decreases |listing|
  {
    if listing != [] {
      var rest := Entries(listing[1..]);
      ParseEntryOf(listing[0].0, listing[0].1, rest);
      ParseEntriesOf(listing[1..]);
      ParseEntriesCons(Entry(listing[0].0, listing[0].1) + rest, listing[0], rest, listing[1..]);
      HeadTail(listing);
    }
  }

  /** The text after the general entry reads back as the entries it holds. */
  lemma ParseIndexTailOf(sitemaps: string, listing: seq<(string, string)>)
    requires ParseEntries(sitemaps) == Some(listing)
    ensures ParseIndexTail(IndexIndent + sitemaps + IndexEpilog) == Some(listing)
  {
    var rest := IndexIndent + sitemaps + IndexEpilog;
    assert rest[..|IndexIndent|] == IndexIndent;
    assert rest[|rest| - |IndexEpilog|..] == IndexEpilog;
    assert rest[|IndexIndent|..|rest| - |IndexEpilog|] == sitemaps;
  }

  /** An index whose first entry and tail each read back reads back as a whole. */
  lemma ParseIndexOf(body: string, file: string, lastmod: string, rest: string, listing: seq<(string, string)>)
    requires ParseEntry(body) == Some((file, lastmod, rest))
    requires ParseIndexTail(rest) == Some(listing)
    ensures ParseIndex(IndexProlog + body) == Some([(file, lastmod)] + listing)
  {
    DropPrefix(IndexProlog, body);
  }

  /** The general entry of the template is read back as such. */
  lemma ParseGeneralEntry(rest: string)
    ensures ParseEntry(Entry(GeneralFileName, GeneralLastmod) + rest) == Some((GeneralFileName, GeneralLastmod, rest))
  {
    assert forall i :: 0 <= i < |GeneralFileName| ==> GeneralFileName[i] != '<';
    assert forall i :: 0 <= i < |GeneralLastmod| ==> GeneralLastmod[i] != '<';
    ParseEntryOf(GeneralFileName, GeneralLastmod, rest);
  }

  /**
   * The index document lists the general sitemap first and then exactly the
   * given entries, in order.
   */
  lemma ParseIndexXml(listing: seq<(string, string)>)
    requires forall i :: 0 <= i < |listing| ==> '<' !in listing[i].0 && '<' !in listing[i].1
    ensures ParseIndex(IndexXml(Entries(listing))) == Some([(GeneralFileName, GeneralLastmod)] + listing)
  {
    var rest := IndexIndent + Entries(listing) + IndexEpilog;
    ParseGeneralEntry(rest);
    ParseEntriesOf(listing);
    ParseIndexTailOf(Entries(listing), listing);
    ParseIndexOf(Entry(GeneralFileName, GeneralLastmod) + rest, GeneralFileName, GeneralLastmod, rest, listing);
  }
}
