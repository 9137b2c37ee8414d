/** The client-side helpers of the scrape page: the name under which the
    extracted questions are downloaded, and the checks made on the URL
    before the scrape request is sent. */
module Page {
  import opened Text

  const DataSuffix := "-data"
  const JsonExtension := ".json"
  const MarkdownExtension := ".md"
  const EmptyUrlMessage := "URL cannot be empty"
  const InvalidUrlMessage := "Invalid URL format. Make sure it ends with .md"

  /** The last of the parts of `url` split on `/`. */
  function LastSegment(url: string): (segment: string)
    ensures '/' !in segment
  {
    var segments := Split(url, '/');
    segments[|segments| - 1]
  }

  /** The last segment is the text after the last `/`, or all of `url`
      when it has none. */
  lemma LastSegmentIsTail(url: string)
    ensures EndsWith(url, LastSegment(url))
    ensures LastSegment(url) == url || url[|url| - |LastSegment(url)| - 1] == '/'
  {
    var segments := Split(url, '/');
    JoinSplit(url, '/');
    if |segments| >= 2 {
      JoinLast(segments, '/');
    }
  }

  /** `getFileNameFromUrl`: the last segment of the URL with its first
      `.md` removed, followed by `-data`. */
  function FileNameFromUrl(url: string): (name: string)
    ensures EndsWith(name, DataSuffix)
  {
    ReplaceFirst(LastSegment(url), MarkdownExtension, "") + DataSuffix
  }

  /** Only the text after the last `/` matters. */
  lemma FileNameUsesLastSegment(prefix: string, rest: string)
    ensures FileNameFromUrl(prefix + "/" + rest) == FileNameFromUrl(rest)
  {
    SplitAtSeparator(prefix, rest, '/');
  }

  /** A URL without `/` is its own last segment. */
  lemma FileNameWithoutSlash(url: string)
    requires '/' !in url
    ensures FileNameFromUrl(url) == ReplaceFirst(url, MarkdownExtension, "") + DataSuffix
  {
    SplitNoSeparator(url, '/');
  }

  /** Only the first `.md` of the last segment is removed; later ones stay. */
  lemma FileNameDropsFirstMd(before: string, after: string)
    requires '/' !in before && '/' !in after
    requires forall k :: 0 <= k < |before| ==> !OccursAt(before + MarkdownExtension + after, MarkdownExtension, k)
    ensures FileNameFromUrl(before + MarkdownExtension + after) == before + after + DataSuffix
  {
    var segment := before + MarkdownExtension + after;
    assert '/' !in segment;
    SplitNoSeparator(segment, '/');
    assert LastSegment(segment) == segment;
    assert OccursAt(segment, MarkdownExtension, |before|) by {
      assert segment[|before|..|before| + |MarkdownExtension|] == MarkdownExtension;
    }
    ReplaceFirstAt(segment, MarkdownExtension, "", |before|);
    var kept := ReplaceFirst(segment, MarkdownExtension, "");
    assert kept == before + after by {
      assert segment[..|before|] == before;
      assert segment[|before| + |MarkdownExtension|..] == after;
    }
    assert FileNameFromUrl(segment) == kept + DataSuffix;
  }

  /** A double extension keeps its second `.md`: `a.md.md` is saved as
      `a.md-data`. */
  lemma FileNameOfDoubleMd(stem: string)
    requires '/' !in stem && '.' !in stem
    ensures FileNameFromUrl(stem + ".md.md") == stem + ".md-data"
  {
    var segment := stem + MarkdownExtension + MarkdownExtension;
    forall k | 0 <= k < |stem| ensures !OccursAt(segment, MarkdownExtension, k) {
      assert segment[k] == stem[k];
    }
    FileNameDropsFirstMd(stem, MarkdownExtension);
    assert segment == stem + ".md.md";
    assert stem + MarkdownExtension + DataSuffix == stem + ".md-data";
  }

  /** A last segment without `.md` is kept as it is. */
  lemma FileNameKeepsSegmentWithoutMd(segment: string)
    requires '/' !in segment && !Contains(segment, MarkdownExtension)
    ensures FileNameFromUrl(segment) == segment + DataSuffix
  {
    SplitNoSeparator(segment, '/');
  }

  /** `link.download`: the file name with `.json` appended. */
  function DownloadName(url: string): (file: string)
    ensures EndsWith(file, DataSuffix + JsonExtension)
  {
    FileNameFromUrl(url) + JsonExtension
  }

  /** `isValidUrl`: the URL pattern, taken here as the parameter `matches`,
      and the `.md` suffix must both hold. */
  function IsValidUrl(matches: string -> bool, url: string): (ok: bool)
    ensures ok ==> EndsWith(url, MarkdownExtension)
    ensures !matches(url) ==> !ok
  {
    matches(url) && EndsWith(url, MarkdownExtension)
  }

  /** The outcome of the checks at the top of `handleScrape`. */
  datatype Validation = Rejected(message: string) | Accepted

  /** An empty URL is rejected first; a non-empty one that is not valid is
      rejected with the `.md` hint; otherwise the scrape goes ahead. */
  function Validate(matches: string -> bool, url: string): (v: Validation)
    ensures v == Rejected(EmptyUrlMessage) <==> url == ""
    ensures v == Rejected(InvalidUrlMessage) <==> url != "" && !IsValidUrl(matches, url)
    ensures v.Accepted? <==> url != "" && IsValidUrl(matches, url)
    ensures v.Accepted? ==> url != "" && matches(url) && EndsWith(url, MarkdownExtension)
  {
    if url == "" then Rejected(EmptyUrlMessage)
    else if !IsValidUrl(matches, url) then Rejected(InvalidUrlMessage)
    else Accepted
  }
}
