/** `process_feeds`: read the source list, parse each source in order, skip a
    source that fails to parse or is flagged `bozo`, normalise at most its
    first five entries (an entry that raises abandons the rest of its source,
    keeping what was already appended), and sort everything collected by
    date, newest first. */
module Pipeline {
  import opened Wrappers
  import opened Text
  import opened DateTime
  import opened Entry
  import opened Ordering

  const MaxEntriesPerSource := 5

  /** `feedparser.parse(url, request_headers=...)`. */
  type Parse = (string, map<string, string>) -> FeedResult
  /** One pass of the per-entry loop body: the record for an entry, or the exception it raises. */
  type Normalize = RawEntry -> Result<NormalizedEntry, EntryError>

  /** A source URL as the list keeps it: not empty, and neither starting nor
      ending with whitespace. */
  predicate Trimmed(u: string) {
    u != [] && !IsSpace(u[0]) && !IsSpace(u[|u| - 1])
  }

  /** `[line.strip() for line in file if line.strip()]`. */
  function SourceUrls(lines: seq<string>): (urls: seq<string>)
    ensures |urls| <= |lines|
    ensures forall i :: 0 <= i < |urls| ==> Trimmed(urls[i])
  {
    if lines == [] then []
    else
      var url := Strip(lines[0]);
      var rest := SourceUrls(lines[1..]);
      if url == "" then rest
      else
        [url] + rest
  }

  /** One line contributes its `strip()`, unless that is empty. */
  lemma SourceUrlsLine(line: string)
    ensures SourceUrls([line]) == if Strip(line) == "" then [] else [Strip(line)]
  {
    assert [line][1..] == [];
  }

  /** The comprehension keeps the lines' order: the URLs of a concatenation
      are the URLs of its parts, one after the other. */
  lemma {:induction false} SourceUrlsConcat(a: seq<string>, b: seq<string>)
    ensures SourceUrls(a + b) == SourceUrls(a) + SourceUrls(b)
  {
    if a == [] {
      assert a + b == b;
    } else {
      assert (a + b)[0] == a[0] && (a + b)[1..] == a[1..] + b;
      SourceUrlsConcat(a[1..], b);
    }
  }

  /** A URL is in the list exactly when it is the non-empty `strip()` of
      some line. */
  lemma {:induction false} SourceUrlsMembers(lines: seq<string>)
    ensures forall u :: u in SourceUrls(lines) <==>
      exists i :: 0 <= i < |lines| && u == Strip(lines[i]) && u != ""
  {
    if lines != [] {
      SourceUrlsMembers(lines[1..]);
      forall u ensures u in SourceUrls(lines) <==>
        exists i :: 0 <= i < |lines| && u == Strip(lines[i]) && u != ""
      {
        if exists i :: 0 <= i < |lines| && u == Strip(lines[i]) && u != "" {
          var i :| 0 <= i < |lines| && u == Strip(lines[i]) && u != "";
          if i > 0 {
            assert lines[1..][i - 1] == lines[i];
          }
        }
        if u in SourceUrls(lines[1..]) {
          var i :| 0 <= i < |lines[1..]| && u == Strip(lines[1..][i]) && u != "";
          assert lines[i + 1] == lines[1..][i];
        }
      }
    }
  }

  /** `feed.entries[:5]`. */
  function FirstEntries(entries: seq<RawEntry>): (batch: seq<RawEntry>)
    ensures |batch| <= MaxEntriesPerSource && |batch| <= |entries|
    ensures batch == entries[..|batch|]
    ensures |batch| == |entries| || |batch| == MaxEntriesPerSource
  {
    if |entries| <= MaxEntriesPerSource then entries else entries[..MaxEntriesPerSource]
  }

  /** What the per-entry loop appends when `step` builds one record or raises:
      the records of the leading entries, up to (not including) the first
      entry that raises. */
  function UntilFailure<A, B, E>(batch: seq<A>, step: A -> Result<B, E>): (r: seq<B>)
    ensures |r| <= |batch|
    ensures forall k :: 0 <= k < |r| ==> step(batch[k]) == Ok(r[k])
    ensures |r| < |batch| ==> step(batch[|r|]).Err?
  {
    if batch == [] then []
    else match step(batch[0])
      case Err(_) => []
      case Ok(n) => [n] + UntilFailure(batch[1..], step)
  }

  /** `NormalizeEntry` with the collaborators fixed. */
  function Normalizer(env: Collaborators): Normalize {
    e => NormalizeEntry(e, env)
  }

  /** What one source contributes to the collected list, when `normalize`
      builds the record of one entry or raises. */
  function SourceEntries(feed: FeedResult, normalize: Normalize): (r: seq<NormalizedEntry>)
    ensures !feed.Parsed? ==> r == []
    ensures feed.Parsed? ==> |r| <= MaxEntriesPerSource && |r| <= |feed.entries|
  {
    match feed
    case Unreachable => []
    case Malformed => []
    case Parsed(entries) => UntilFailure(FirstEntries(entries), normalize)
  }

  /** The list collected from `urls` before the final sort, source by source,
      when `parse` parses a source and `normalize` builds one record. */
  function Collected(urls: seq<string>, parse: Parse, normalize: Normalize): seq<NormalizedEntry> {
    if urls == [] then []
    else Collected(urls[..|urls| - 1], parse, normalize) + SourceEntries(parse(urls[|urls| - 1], Headers), normalize)
  }

  lemma {:induction false} UntilFailureAppend<A, B, E>(batch: seq<A>, x: A, step: A -> Result<B, E>)
    requires |UntilFailure(batch, step)| == |batch|
    ensures step(x).Ok? ==> UntilFailure(batch + [x], step) == UntilFailure(batch, step) + [step(x).value]
    ensures step(x).Err? ==> UntilFailure(batch + [x], step) == UntilFailure(batch, step)
  {
    if batch == [] {
      assert ([x])[1..] == [];
    } else {
      assert (batch + [x])[1..] == batch[1..] + [x];
      UntilFailureAppend(batch[1..], x, step);
    }
  }

  lemma {:induction false} UntilFailureStops<A, B, E>(batch: seq<A>, j: nat, step: A -> Result<B, E>)
    requires j < |batch|
    requires |UntilFailure(batch[..j], step)| == j
    requires step(batch[j]).Err?
    ensures UntilFailure(batch, step) == UntilFailure(batch[..j], step)
  {
    if j > 0 {
      assert batch[..j][1..] == batch[1..][..j - 1];
      UntilFailureStops(batch[1..], j - 1, step);
    }
  }

  lemma CollectedStep(urls: seq<string>, i: nat, parse: Parse, normalize: Normalize)
    requires i < |urls|
    ensures Collected(urls[..i + 1], parse, normalize)
         == Collected(urls[..i], parse, normalize) + SourceEntries(parse(urls[i], Headers), normalize)
  {
    assert urls[..i + 1][..i] == urls[..i];
  }

  lemma SliceExtend<A>(s: seq<A>, j: nat)
    requires j < |s|
    ensures s[..j + 1] == s[..j] + [s[j]]
  {
  }

  /** Collecting from two lists of sources one after the other. */
  lemma {:induction false} CollectedConcat(u1: seq<string>, u2: seq<string>, parse: Parse, normalize: Normalize)
    ensures Collected(u1 + u2, parse, normalize) == Collected(u1, parse, normalize) + Collected(u2, parse, normalize)
  {
    if u2 != [] {
      var last := u2[|u2| - 1];
      assert (u1 + u2)[..|u1 + u2| - 1] == u1 + u2[..|u2| - 1];
      CollectedConcat(u1, u2[..|u2| - 1], parse, normalize);
    } else {
      assert u1 + u2 == u1;
    }
  }

  /** Failure isolation: a source whose parse raised or was flagged `bozo`
      adds nothing, and the sources before and after it contribute exactly
      what they would without it. */
  lemma FailedSourceSkipped(before: seq<string>, url: string, after: seq<string>, parse: Parse, normalize: Normalize)
    requires !parse(url, Headers).Parsed?
    ensures Collected(before + [url] + after, parse, normalize)
         == Collected(before, parse, normalize) + Collected(after, parse, normalize)
  {
    var none := Collected([url], parse, normalize);
    assert none == [] by {
      assert [url][..0] == [] && [url][0] == url;
      assert SourceEntries(parse(url, Headers), normalize) == [];
      assert Collected([], parse, normalize) == [];
    }
    CollectedConcat(before, [url], parse, normalize);
    CollectedConcat(before + [url], after, parse, normalize);
    var a := Collected(before, parse, normalize);
    assert Collected(before + [url], parse, normalize) == a + none == a;
  }

  /** What a parsed source contributes: the records of its leading entries, in
      feed order, at most five of them, stopping just before the first of its
      first five entries that raises. */
  lemma SourceEntriesInFeedOrder(entries: seq<RawEntry>, normalize: Normalize)
    ensures var out := SourceEntries(Parsed(entries), normalize);
      && |out| <= MaxEntriesPerSource && |out| <= |entries|
      && (forall k :: 0 <= k < |out| ==> normalize(entries[k]) == Ok(out[k]))
      && (|out| < |entries| && |out| < MaxEntriesPerSource ==> normalize(entries[|out|]).Err?)
  {
  }

  /** At most five records per source. */
  lemma {:induction false} CollectedBound(urls: seq<string>, parse: Parse, normalize: Normalize)
    ensures |Collected(urls, parse, normalize)| <= MaxEntriesPerSource * |urls|
  {
    if urls != [] {
      CollectedBound(urls[..|urls| - 1], parse, normalize);
    }
  }

  /** A property every record `normalize` builds holds of every collected record. */
  lemma {:induction false} CollectedAll(urls: seq<string>, parse: Parse, normalize: Normalize,
                                        p: NormalizedEntry -> bool)
    requires forall e :: normalize(e).Ok? ==> p(normalize(e).value)
    ensures forall n :: n in Collected(urls, parse, normalize) ==> p(n)
  {
    if urls != [] {
      var prefix := urls[..|urls| - 1];
      CollectedAll(prefix, parse, normalize, p);
      var out := SourceEntries(parse(urls[|urls| - 1], Headers), normalize);
      forall n | n in out ensures p(n) {
        var batch := FirstEntries(parse(urls[|urls| - 1], Headers).entries);
        var k :| 0 <= k < |out| && out[k] == n;
        assert normalize(batch[k]) == Ok(n);
      }
    }
  }

  /** The `published` field of a record is absent or a 19-character ISO-8601
      string, so never the empty string that stands for "undated" in the
      sort key. */
  predicate DateShaped(n: NormalizedEntry) {
    n.published.None? || |n.published.value| == 19
  }

  lemma NormalizerDates(env: Collaborators)
    ensures forall e :: Normalizer(env)(e).Ok? ==> DateShaped(Normalizer(env)(e).value)
  {
    forall e | Normalizer(env)(e).Ok? ensures DateShaped(Normalizer(env)(e).value) {
      NormalizedRecord(e, env);
    }
  }

  /** Every collected record has a date that is absent or a 19-character
      ISO-8601 string. */
  lemma CollectedDates(urls: seq<string>, env: Collaborators)
    ensures forall n :: n in Collected(urls, env.parse, Normalizer(env)) ==> DateShaped(n)
  {
    NormalizerDates(env);
    CollectedAll(urls, env.parse, Normalizer(env), DateShaped);
  }

  /** The body of `for url in urls`: parse the source, skip it when parsing
      raised or the result is `bozo`, else append the records of its first
      five entries to `all` until one of them raises. */
  method ReadSource(url: string, parse: Parse,
                    normalize: Normalize, all: seq<NormalizedEntry>)
    returns (all': seq<NormalizedEntry>)
    ensures all' == all + SourceEntries(parse(url, Headers), normalize)
  {
    all' := all;
    var feed := parse(url, Headers);
    if !feed.Parsed? {
      return;
    }
    var batch := FirstEntries(feed.entries);
    for j := 0 to |batch|
      invariant all' == all + UntilFailure(batch[..j], normalize)
      invariant |UntilFailure(batch[..j], normalize)| == j
    {
      SliceExtend(batch, j);
      UntilFailureAppend(batch[..j], batch[j], normalize);
      var r := normalize(batch[j]);
      if r.Err? {
        UntilFailureStops(batch, j, normalize);
        break;
      }
      all' := all' + [r.value];
    }
    assert batch[..|batch|] == batch;
  }

  /** `for url in urls:` with the loop body `ReadSource`: the records of every
      source, in source order. */
  method CollectSources(urls: seq<string>, parse: Parse, normalize: Normalize)
    returns (all: seq<NormalizedEntry>)
    ensures all == Collected(urls, parse, normalize)
  {
    all := [];
    for i := 0 to |urls|
      invariant all == Collected(urls[..i], parse, normalize)
    {
      CollectedStep(urls, i, parse, normalize);
      all := ReadSource(urls[i], parse, normalize, all);
    }
    assert urls[..|urls|] == urls;
  }

  /** `process_feeds`. `feedsFile` is the list of lines of `feeds.txt`, or
      `None` when the file is missing: then nothing is collected. */
  method ProcessFeeds(feedsFile: Option<seq<string>>, env: Collaborators) returns (entries: seq<NormalizedEntry>)
    ensures feedsFile.None? ==> entries == []
    ensures feedsFile.Some? ==> entries == SortByPublished(Collected(SourceUrls(feedsFile.value), env.parse, Normalizer(env)))
  {
    if feedsFile.None? {
      return [];
    }
    var urls := SourceUrls(feedsFile.value);
    var all := CollectSources(urls, env.parse, Normalizer(env));
    entries := SortByPublished(all);
  }

  /** What `process_feeds` returns: at most five records per source, newest
      first, every undated record after every dated one, and a permutation of
      the records collected source by source. */
  lemma ProcessFeedsResult(urls: seq<string>, env: Collaborators)
    ensures var all := Collected(urls, env.parse, Normalizer(env));
      var entries := SortByPublished(all);
      && |entries| <= MaxEntriesPerSource * |urls|
      && multiset(entries) == multiset(all)
      && SortedDesc(entries)
      && forall i, j :: 0 <= i < j < |entries| && entries[i].published.None? ==> entries[j].published.None?
  {
    var all := Collected(urls, env.parse, Normalizer(env));
    CollectedBound(urls, env.parse, Normalizer(env));
    CollectedDates(urls, env);
    SortedUndatedLast(all);
  }

  /** Newest first in time: of two dated records in a descending list, the
      earlier one renders a timestamp no older than the later one's. */
  lemma NewestFirst(s: seq<NormalizedEntry>, i: nat, j: nat, ti: TimeTuple, tj: TimeTuple)
    requires SortedDesc(s) && i < j < |s|
    requires IsValid(ti) && IsValid(tj)
    requires s[i].published == Some(IsoFormat(ti)) && s[j].published == Some(IsoFormat(tj))
    ensures AtOrBefore(tj, ti)
  {
    assert LexLeq(SortKey(s[j]), SortKey(s[i]));
    IsoFormatOrder(tj, ti);
  }
}
