/**
 * The "ImgBB Bulk Uploader" tab: for every non-blank line, download the
 * image, upload it only if the download gave data, and record one entry per
 * line. The network is not modelled; what it answers is an input.
 */
module UploadBatch {
  import opened Wrappers
  import opened PyText
  import opened LinkBatch
  import opened Seqs

  type Bytes = seq<bv8>

  /**
   * What the network answers while one link is processed: the body of the
   * GET (`None` for a transport error or a status other than 200) and the
   * hosted URL from the upload's JSON reply (`None` for an exception or a
   * status other than 200). The second is only consulted after a download.
   */
  datatype Reply = Reply(download: Option<Bytes>, upload: Option<string>)

  /** One request to the network and its answer, in the order they happen. */
  datatype Exchange =
    | Fetch(url: string, fetched: Option<Bytes>)
    | Post(key: string, image: Bytes, hosted: Option<string>)

  const MissingKey := "Please enter your ImgBB API Key"
  const MissingLinks := "Please enter some download links"
  const DownloadFailed := "Failed to download: "
  const UploadFailed := "Failed to upload: "

  /**
   * What the loop records for one non-blank link: the hosted URL, or a
   * failure that carries the line as split from the stripped text area,
   * with its own whitespace kept.
   */
  datatype Entry =
    | Hosted(url: string)
    | DownloadFailure(link: string)
    | UploadFailure(link: string)

  /** The string the loop appends to its results for an entry. */
  function Text(e: Entry): string {
    match e
    case Hosted(url) => url
    case DownloadFailure(link) => DownloadFailed + link
    case UploadFailure(link) => UploadFailed + link
  }

  /**
   * The two failure strings cannot be confused with each other, whatever
   * the links: they differ at the word after "Failed to ".
   */
  lemma FailureTextsDiffer(link1: string, link2: string)
    ensures Text(DownloadFailure(link1)) != Text(UploadFailure(link2))
    ensures Text(DownloadFailure(link1))[..|DownloadFailed|] == DownloadFailed
    ensures Text(UploadFailure(link2))[..|UploadFailed|] == UploadFailed
  {
    assert Text(DownloadFailure(link1))[10] == 'd';
    assert Text(UploadFailure(link2))[10] == 'u';
  }

  /**
   * The entry recorded for one non-blank link. An empty hosted URL is false
   * in Python and so counts as a failed upload.
   */
  function Outcome(link: string, reply: Reply): Entry {
    match reply.download
    case None => DownloadFailure(link)
    case Some(_) =>
      if reply.upload.Some? && reply.upload.value != [] then Hosted(reply.upload.value) else UploadFailure(link)
  }

  /** The requests made for one link: a GET of the stripped link, then a POST of its bytes if it gave any. */
  function LinkExchanges(key: string, link: string, reply: Reply): seq<Exchange> {
    [Fetch(Strip(link), reply.download)]
    + (if reply.download.Some? then [Post(key, reply.download.value, reply.upload)] else [])
  }

  /** The requests made for the links, one link after the other. */
  function Exchanges(key: string, links: seq<string>, replies: seq<Reply>): seq<Exchange>
    requires |links| == |replies|
  {
    if links == [] then
      []
    else
      var n := |links| - 1;
      Exchanges(key, links[..n], replies[..n]) + LinkExchanges(key, links[n], replies[n])
  }

  /** One more link adds its own requests at the end of the log. */
  lemma ExchangesStep(key: string, links: seq<string>, link: string, replies: seq<Reply>, n: nat)
    requires |links| == n < |replies|
    ensures Exchanges(key, links + [link], replies[..n + 1])
         == Exchanges(key, links, replies[..n]) + LinkExchanges(key, link, replies[n])
  {
    Snoc(links, link);
    TakeOneMore(replies, n);
  }

  /** The URLs fetched, in the order the GETs were made. */
  function FetchedUrls(log: seq<Exchange>): seq<string> {
    if log == [] then
      []
    else
      var n := |log| - 1;
      FetchedUrls(log[..n]) + (if log[n].Fetch? then [log[n].url] else [])
  }

  /** Every upload in `log` comes right after a download that gave data, and posts those bytes with `key`. */
  ghost predicate UploadsFollowDownloads(log: seq<Exchange>, key: string) {
    forall j :: 0 <= j < |log| && log[j].Post? ==>
      0 < j && log[j - 1].Fetch? && log[j - 1].fetched == Some(log[j].image) && log[j].key == key
  }

  /** Every download in `log` that gave data is followed right away by the upload of those bytes with `key`. */
  ghost predicate DownloadsLeadToUploads(log: seq<Exchange>, key: string) {
    forall j :: 0 <= j < |log| && log[j].Fetch? && log[j].fetched.Some? ==>
      j + 1 < |log| && log[j + 1].Post? && log[j + 1].key == key && log[j + 1].image == log[j].fetched.value
  }

  /**
   * An upload is attempted only right after a download that gave data, and
   * always then: the log pairs each successful download with the upload of
   * exactly its bytes under the API key.
   */
  lemma {:induction false} UploadOnlyAfterDownload(key: string, links: seq<string>, replies: seq<Reply>)
    requires |links| == |replies|
    ensures UploadsFollowDownloads(Exchanges(key, links, replies), key)
    ensures DownloadsLeadToUploads(Exchanges(key, links, replies), key)
  {
    if links != [] {
      var n := |links| - 1;
      UploadOnlyAfterDownload(key, links[..n], replies[..n]);
      var front := Exchanges(key, links[..n], replies[..n]);
      var last := LinkExchanges(key, links[n], replies[n]);
      var log := front + last;
      assert log == Exchanges(key, links, replies);
      forall j | 0 <= j < |log| && log[j].Post?
        ensures 0 < j && log[j - 1].Fetch? && log[j - 1].fetched == Some(log[j].image) && log[j].key == key
      {
        if j < |front| {
          assert log[j] == front[j];
          assert 0 < j && front[j - 1].Fetch? && front[j - 1].fetched == Some(front[j].image);
          assert log[j - 1] == front[j - 1];
        } else {
          assert j == |front| + 1 && log[j - 1] == last[0];
        }
      }
      forall j | 0 <= j < |log| && log[j].Fetch? && log[j].fetched.Some?
        ensures j + 1 < |log| && log[j + 1].Post? && log[j + 1].key == key && log[j + 1].image == log[j].fetched.value
      {
        if j < |front| {
          assert log[j] == front[j];
          assert j + 1 < |front| && front[j + 1].Post?;
          assert log[j + 1] == front[j + 1];
        } else {
          assert j == |front| && log[j + 1] == last[1];
        }
      }
    }
  }

  /** One link's requests hold exactly one GET, for the stripped link. */
  lemma FetchedUrlsOfLink(key: string, link: string, reply: Reply)
    ensures FetchedUrls(LinkExchanges(key, link, reply)) == [Strip(link)]
  {
    var last := LinkExchanges(key, link, reply);
    var get := [last[0]];
    TakeNone(get);
    assert FetchedUrls(get) == [Strip(link)];
    if |last| == 2 {
      var post := [last[1]];
      TakeNone(post);
      assert last == get + post;
      FetchedUrlsAppend(get, post);
      AppendEmpty(FetchedUrls(get));
    } else {
      assert last == get;
    }
  }

  /** The GETs go out for the stripped links, one per link, in input order. */
  lemma {:induction false} FetchesFollowLinks(key: string, links: seq<string>, replies: seq<Reply>)
    requires |links| == |replies|
    ensures var urls := FetchedUrls(Exchanges(key, links, replies));
      && urls == Map(Strip, links)
      && |urls| == |links| && forall k :: 0 <= k < |links| ==> urls[k] == Strip(links[k])
  {
    if links != [] {
      var n := |links| - 1;
      FetchesFollowLinks(key, links[..n], replies[..n]);
      var front := Exchanges(key, links[..n], replies[..n]);
      var last := LinkExchanges(key, links[n], replies[n]);
      FetchedUrlsAppend(front, last);
      FetchedUrlsOfLink(key, links[n], replies[n]);
      MapSnoc(Strip, links[..n], links[n]);
      TakeOneMore(links, n);
      TakeAll(links, |links|);
    }
  }

  /** Collecting fetched URLs distributes over appending logs. */
  lemma {:induction false} FetchedUrlsAppend(a: seq<Exchange>, b: seq<Exchange>)
    ensures FetchedUrls(a + b) == FetchedUrls(a) + FetchedUrls(b)
  {
    if b == [] {
      AppendEmpty(a);
      AppendEmpty(FetchedUrls(a));
    } else {
      var n := |b| - 1;
      FetchedUrlsAppend(a, b[..n]);
      AppendFront(a, b);
      var last := if b[n].Fetch? then [b[n].url] else [];
      AppendAssoc(FetchedUrls(a), FetchedUrls(b[..n]), last);
    }
  }

  /**
   * The tab's upload loop. Without an API key, or with a blank text area, it
   * stops before any request with the matching message. Otherwise, for each
   * non-blank line in order, it downloads the stripped line, uploads the
   * bytes when there are any, and records the hosted URL or a failure entry
   * carrying the line as split, not stripped again. `replies[k]` is what the network answers
   * for the k-th non-blank line.
   */
  method UploadLinks(apiKey: string, input: string, replies: seq<Reply>)
    returns (result: Result<seq<Entry>, string>, log: seq<Exchange>)
    requires apiKey != [] && !AllSpace(input) ==> |replies| == |NonBlank(InputLines(input))|
    ensures apiKey == [] ==> result == Failure(MissingKey) && log == []
    ensures apiKey != [] && AllSpace(input) ==> result == Failure(MissingLinks) && log == []
    ensures apiKey != [] && !AllSpace(input) ==>
      var kept := NonBlank(InputLines(input));
      && result.Success?
      && |result.value| == |kept|
      && (forall k :: 0 <= k < |kept| ==> result.value[k] == Outcome(kept[k], replies[k]))
      && log == Exchanges(apiKey, kept, replies)
  {
    log := [];
    if apiKey == [] {
      return Failure(MissingKey), log;
    }
    var text := Strip(input);
    StripEmpty(input);
    if text == [] {
      return Failure(MissingLinks), log;
    }
    var links := Split(text, '\n');
    assert links == InputLines(input);
    var entries;
    entries, log := ProcessLinks(apiKey, links, replies);
    OutcomesAt(NonBlank(links), replies);
    result := Success(entries);
  }

  /**
   * The entry reports what happened on the wire for its link: a download
   * failure exactly when only the GET went out, the hosted URL exactly when
   * the POST answered with a non-empty one, an upload failure otherwise; a
   * failure names the line it was given, not stripped.
   */
  lemma OutcomeReportsExchanges(key: string, link: string, reply: Reply)
    ensures var ex, e := LinkExchanges(key, link, reply), Outcome(link, reply);
      && 1 <= |ex| <= 2
      && (e.DownloadFailure? <==> |ex| == 1)
      && (e.Hosted? <==> |ex| == 2 && ex[1].hosted.Some? && ex[1].hosted.value != [])
      && (e.Hosted? ==> e.url == ex[1].hosted.value)
      && (!e.Hosted? ==> e.link == link)
  {
  }

  /**
   * One pass of the upload loop for a non-blank line: download the stripped
   * line; if that gave bytes, upload them; record the hosted URL if it is a
   * non-empty string, and a failure entry with the line as given, not
   * stripped, otherwise. This is the step as the loop runs it, one request
   * after the other; `Outcome` and `LinkExchanges` specify its result, and
   * the lemmas about the loop's promises are stated about them.
   */
  method ProcessLink(apiKey: string, link: string, reply: Reply)
    returns (entry: Entry, exchanges: seq<Exchange>)
    ensures entry == Outcome(link, reply)
    ensures exchanges == LinkExchanges(apiKey, link, reply)
  {
    var imageData := reply.download;
    exchanges := [Fetch(Strip(link), imageData)];
    if imageData.Some? {
      var imgbbUrl := reply.upload;
      exchanges := exchanges + [Post(apiKey, imageData.value, imgbbUrl)];
      if imgbbUrl.Some? && imgbbUrl.value != [] {
        entry := Hosted(imgbbUrl.value);
      } else {
        entry := UploadFailure(link);
      }
    } else {
      entry := DownloadFailure(link);
    }
  }

  /** The entries recorded for the links, one per link, in order. */
  function Outcomes(links: seq<string>, replies: seq<Reply>): seq<Entry>
    requires |links| == |replies|
  {
    if links == [] then
      []
    else
      var n := |links| - 1;
      Outcomes(links[..n], replies[..n]) + [Outcome(links[n], replies[n])]
  }

  /** The k-th entry is the outcome of the k-th link with the k-th reply. */
  lemma {:induction false} OutcomesAt(links: seq<string>, replies: seq<Reply>)
    requires |links| == |replies|
    ensures |Outcomes(links, replies)| == |links|
    ensures forall k :: 0 <= k < |links| ==> Outcomes(links, replies)[k] == Outcome(links[k], replies[k])
  {
    if links != [] {
      var n := |links| - 1;
      OutcomesAt(links[..n], replies[..n]);
    }
  }

  /** One more link adds its own entry at the end. */
  lemma OutcomesStep(links: seq<string>, link: string, replies: seq<Reply>, n: nat)
    requires |links| == n < |replies|
    ensures Outcomes(links + [link], replies[..n + 1]) == Outcomes(links, replies[..n]) + [Outcome(link, replies[n])]
  {
    Snoc(links, link);
    TakeOneMore(replies, n);
  }

  /** A prefix of the lines keeps no more lines than the whole. */
  lemma NonBlankPrefix(links: seq<string>, i: nat)
    requires i <= |links|
    ensures |NonBlank(links[..i])| <= |NonBlank(links)|
  {
    NonBlankAppend(links[..i], links[i..]);
    TakeDrop(links, i);
  }

  /**
   * One turn of the upload loop on a non-blank line: a reply is left for
   * it, and its entry and requests extend those of the lines before it.
   */
  lemma ProcessLinksStep(apiKey: string, links: seq<string>, replies: seq<Reply>, i: nat, kept: seq<string>)
    requires |replies| == |NonBlank(links)|
    requires i < |links| && !IsBlank(links[i])
    requires kept == NonBlank(links[..i])
    ensures NonBlank(links[..i + 1]) == kept + [links[i]]
    ensures |kept| < |replies|
    ensures Outcomes(kept + [links[i]], replies[..|kept| + 1])
         == Outcomes(kept, replies[..|kept|]) + [Outcome(links[i], replies[|kept|])]
    ensures Exchanges(apiKey, kept + [links[i]], replies[..|kept| + 1])
         == Exchanges(apiKey, kept, replies[..|kept|]) + LinkExchanges(apiKey, links[i], replies[|kept|])
  {
    NonBlankStep(links, i);
    NonBlankPrefix(links, i + 1);
    OutcomesStep(kept, links[i], replies, |kept|);
    ExchangesStep(apiKey, kept, links[i], replies, |kept|);
  }

  /**
   * The upload loop over the split lines: blank lines are skipped;
   * `replies[k]` answers the requests for the k-th non-blank line.
   */
  method ProcessLinks(apiKey: string, links: seq<string>, replies: seq<Reply>)
    returns (entries: seq<Entry>, log: seq<Exchange>)
    requires |replies| == |NonBlank(links)|
    ensures entries == Outcomes(NonBlank(links), replies)
    ensures log == Exchanges(apiKey, NonBlank(links), replies)
  {
    entries, log := [], [];
    ghost var kept: seq<string> := [];
    var n := 0;
    for i := 0 to |links|
      invariant kept == NonBlank(links[..i])
      invariant n == |kept| <= |replies|
      invariant entries == Outcomes(kept, replies[..n])
      invariant log == Exchanges(apiKey, kept, replies[..n])
    {
      var link := links[i];
      StripEmpty(link);
      if Strip(link) != [] {
        ProcessLinksStep(apiKey, links, replies, i, kept);
        var entry, exchanges := ProcessLink(apiKey, link, replies[n]);
        entries := entries + [entry];
        log := log + exchanges;
        kept := kept + [link];
        n := n + 1;
      } else {
        NonBlankStep(links, i);
      }
    }
    TakeAll(links, |links|);
    TakeAll(replies, n);
  }
}
