/**
  MHImageCache: a two-level image cache (memory, then the local file system)
  that downloads each URL at most once at a time.

  The object is used from the main thread only, so it is modelled as a
  single-threaded state machine. The network and the image decoder are outside:
  a method call `ImageFromURL...` that misses both tiers and finds no download
  in flight appends the URL to `downloads` (the request handed to the
  downloader), and the downloader's answer arrives later as a call to
  `DownloadCompleted`. Every invocation of a caller's block is appended to
  `delivered`, so the properties of the callbacks are stated over that log.
*/
module MHImageCache {
  import opened Wrappers

  /** The key of every table: the URL's string form. */
  type Url = string

  /** Raw bytes as downloaded and as stored in the file tier. */
  type Bytes = seq<bv8>

  /** A decoded image (UIImage); the cache never looks inside. */
  datatype Image = Image(pixels: Bytes)

  /** The identity of one block passed to imageFromURL. */
  type Ticket = nat

  /** One invocation of a caller's block: with an image, or with nil on an error. */
  datatype Delivery = Delivery(ticket: Ticket, image: Option<Image>)

  /** An entry of `loadingImages`: the blocks waiting for this URL, in the order
      they were registered, and whether the result goes to the file tier too. */
  datatype Loading = Loading(waiters: seq<Ticket>, cacheInFile: bool)

  /** The blocks of `waiters`, in order, each invoked once with `result`. */
  function Fanout(waiters: seq<Ticket>, result: Option<Image>): (d: seq<Delivery>)
    ensures |d| == |waiters|
    ensures forall i :: 0 <= i < |d| ==> d[i] == Delivery(waiters[i], result)
  {
    if waiters == [] then []
    else Fanout(waiters[..|waiters| - 1], result) + [Delivery(waiters[|waiters| - 1], result)]
  }

  /** What a download's answer yields: the decoded image, or nil when the
      download failed (`data` is None) or its bytes do not decode. */
  function Outcome(decode: Bytes -> Option<Image>, data: Option<Bytes>): (r: Option<Image>)
    ensures data.None? ==> r.None?
    ensures data.Some? ==> r == decode(data.value)
  {
    if data.None? then None else decode(data.value)
  }

  /** How many times `u` occurs in `s`. */
  function Count(s: seq<Url>, u: Url): nat
  {
    if s == [] then 0
    else Count(s[..|s| - 1], u) + (if s[|s| - 1] == u then 1 else 0)
  }

  lemma CountSnoc(s: seq<Url>, x: Url, u: Url)
    ensures Count(s + [x], u) == Count(s, u) + (if x == u then 1 else 0)
  {
    assert (s + [x])[..|s|] == s;
  }

  /** Where a registered block stands: waiting at place `pos` in the list of
      waiters of `url`, or already invoked, as entry `at` of the delivery log. */
  datatype Status = Waiting(url: Url, pos: nat) | Invoked(at: nat)

  // Each clause of the invariant is stated for one URL, place or ticket by a
  // predicate of its own, and quantified over that predicate, so the solver
  // only instantiates a clause where a proof names it.

  /** The registry entry of `u`, if any, is not empty. */
  ghost predicate EntryNonEmpty(loading: map<Url, Loading>, u: Url)
  {
    u in loading ==> |loading[u].waiters| > 0
  }

  /** The `i`-th waiter of `u`, if any, is a registered block whose status says
      it waits there, at that place. */
  ghost predicate WaiterRecorded(loading: map<Url, Loading>, status: seq<Status>, u: Url, i: int)
  {
    u in loading && 0 <= i < |loading[u].waiters| ==>
      loading[u].waiters[i] < |status| && status[loading[u].waiters[i]] == Waiting(u, i)
  }

  /** Block `t`, if it is waiting, sits where its status says. */
  ghost predicate WaitingListed(loading: map<Url, Loading>, status: seq<Status>, t: int)
  {
    0 <= t < |status| && status[t].Waiting? ==>
      && status[t].url in loading
      && status[t].pos < |loading[status[t].url].waiters|
      && loading[status[t].url].waiters[status[t].pos] == t
  }

  /** Entry `k` of the delivery log, if any, is the invocation its block's
      status names. */
  ghost predicate DeliveryRecorded(delivered: seq<Delivery>, status: seq<Status>, k: int)
  {
    0 <= k < |delivered| ==>
      delivered[k].ticket < |status| && status[delivered[k].ticket] == Invoked(k)
  }

  /** Block `t`, if it has been invoked, appears in the log where its status says. */
  ghost predicate InvokedLogged(delivered: seq<Delivery>, status: seq<Status>, t: int)
  {
    0 <= t < |status| && status[t].Invoked? ==>
      status[t].at < |delivered| && delivered[status[t].at].ticket == t
  }

  /** The downloads started for `u` exceed the ones answered by one exactly
      when `u` is in the registry: at most one download per URL is in flight. */
  ghost predicate OneDownloadInFlight(downloads: seq<Url>, completed: seq<Url>, loading: map<Url, Loading>, u: Url)
  {
    Count(downloads, u) == Count(completed, u) + (if u in loading then 1 else 0)
  }

  /** The `i`-th waiter of `u`, if any, has a ticket below `n`. */
  ghost predicate WaiterIssued(loading: map<Url, Loading>, n: nat, u: Url, i: int)
  {
    u in loading && 0 <= i < |loading[u].waiters| ==> loading[u].waiters[i] < n
  }

  /** The invariant of the cache's bookkeeping: registry entries are never
      empty, each registered block is either waiting (in exactly one place) or
      invoked (exactly once), and downloads are not duplicated. */
  ghost predicate Consistent(loading: map<Url, Loading>, delivered: seq<Delivery>, downloads: seq<Url>,
                             completed: seq<Url>, status: seq<Status>)
  {
    && (forall u :: EntryNonEmpty(loading, u))
    && (forall u, i :: WaiterRecorded(loading, status, u, i))
    && (forall t :: WaitingListed(loading, status, t))
    && (forall k :: DeliveryRecorded(delivered, status, k))
    && (forall t :: InvokedLogged(delivered, status, t))
    && (forall u :: OneDownloadInFlight(downloads, completed, loading, u))
  }

  /** A new block served at once from a tier keeps the invariant. */
  lemma ServeAtOnce(loading: map<Url, Loading>, delivered: seq<Delivery>, downloads: seq<Url>,
                    completed: seq<Url>, status: seq<Status>, image: Option<Image>)
    requires Consistent(loading, delivered, downloads, completed, status)
    ensures Consistent(loading, delivered + [Delivery(|status|, image)], downloads, completed,
                       status + [Invoked(|delivered|)])
  {
    var d, s := delivered + [Delivery(|status|, image)], status + [Invoked(|delivered|)];
    forall u, i ensures WaiterRecorded(loading, s, u, i) {
      assert WaiterRecorded(loading, status, u, i);
    }
    forall t ensures WaitingListed(loading, s, t) {
      assert WaitingListed(loading, status, t);
    }
    forall k ensures DeliveryRecorded(d, s, k) {
      assert DeliveryRecorded(delivered, status, k);
    }
    forall t ensures InvokedLogged(d, s, t) {
      assert InvokedLogged(delivered, status, t);
    }
  }

  /** A new block attached to the download already in flight for `url` keeps
      the invariant. */
  lemma AttachWaiter(loading: map<Url, Loading>, delivered: seq<Delivery>, downloads: seq<Url>,
                     completed: seq<Url>, status: seq<Status>, url: Url)
    requires Consistent(loading, delivered, downloads, completed, status)
    requires url in loading
    ensures Consistent(loading[url := Loading(loading[url].waiters + [|status|], loading[url].cacheInFile)],
                       delivered, downloads, completed, status + [Waiting(url, |loading[url].waiters|)])
  {
    var w := loading[url].waiters;
    var l, s := loading[url := Loading(w + [|status|], loading[url].cacheInFile)], status + [Waiting(url, |w|)];
    forall u ensures EntryNonEmpty(l, u) {
      assert EntryNonEmpty(loading, u);
    }
    forall u, i ensures WaiterRecorded(l, s, u, i) {
      assert WaiterRecorded(loading, status, u, i);
    }
    forall t ensures WaitingListed(l, s, t) {
      assert WaitingListed(loading, status, t);
    }
    forall k ensures DeliveryRecorded(delivered, s, k) {
      assert DeliveryRecorded(delivered, status, k);
    }
    forall t ensures InvokedLogged(delivered, s, t) {
      assert InvokedLogged(delivered, status, t);
    }
    forall u ensures OneDownloadInFlight(downloads, completed, l, u) {
      assert OneDownloadInFlight(downloads, completed, loading, u);
    }
  }

  /** A new block for a URL with nothing in flight, together with the download
      started for it, keeps the invariant. */
  lemma StartDownload(loading: map<Url, Loading>, delivered: seq<Delivery>, downloads: seq<Url>,
                      completed: seq<Url>, status: seq<Status>, url: Url, cacheInFile: bool)
    requires Consistent(loading, delivered, downloads, completed, status)
    requires url !in loading
    ensures Consistent(loading[url := Loading([|status|], cacheInFile)],
                       delivered, downloads + [url], completed, status + [Waiting(url, 0)])
  {
    var l, s := loading[url := Loading([|status|], cacheInFile)], status + [Waiting(url, 0)];
    forall u ensures EntryNonEmpty(l, u) {
      assert EntryNonEmpty(loading, u);
    }
    forall u, i ensures WaiterRecorded(l, s, u, i) {
      assert WaiterRecorded(loading, status, u, i);
    }
    forall t ensures WaitingListed(l, s, t) {
      assert WaitingListed(loading, status, t);
    }
    forall k ensures DeliveryRecorded(delivered, s, k) {
      assert DeliveryRecorded(delivered, status, k);
    }
    forall t ensures InvokedLogged(delivered, s, t) {
      assert InvokedLogged(delivered, status, t);
    }
    forall u ensures OneDownloadInFlight(downloads + [url], completed, l, u) {
      assert OneDownloadInFlight(downloads, completed, loading, u);
      CountSnoc(downloads, url, u);
    }
  }

  /** The statuses after the waiters of `url` have been invoked, from entry
      `base` of the log on, in their order. */
  function Settle(status: seq<Status>, url: Url, base: nat): (r: seq<Status>)
    ensures |r| == |status|
    ensures forall t :: 0 <= t < |r| ==>
      r[t] == if status[t].Waiting? && status[t].url == url then Invoked(base + status[t].pos) else status[t]
  {
    seq(|status|, t requires 0 <= t < |status| =>
      if status[t].Waiting? && status[t].url == url then Invoked(base + status[t].pos) else status[t])
  }

  /** The answer to the download for `url`, removing its registry entry and
      invoking each of its blocks once with `result`, keeps the invariant. */
  lemma FinishDownload(loading: map<Url, Loading>, delivered: seq<Delivery>, downloads: seq<Url>,
                       completed: seq<Url>, status: seq<Status>, url: Url, result: Option<Image>)
    requires Consistent(loading, delivered, downloads, completed, status)
    requires url in loading
    ensures Consistent(loading - {url}, delivered + Fanout(loading[url].waiters, result),
                       downloads, completed + [url], Settle(status, url, |delivered|))
  {
    var w := loading[url].waiters;
    var l, d, s := loading - {url}, delivered + Fanout(w, result), Settle(status, url, |delivered|);
    forall u ensures EntryNonEmpty(l, u) {
      assert EntryNonEmpty(loading, u);
    }
    forall u, i ensures WaiterRecorded(l, s, u, i) {
      assert WaiterRecorded(loading, status, u, i);
    }
    forall t ensures WaitingListed(l, s, t) {
      assert WaitingListed(loading, status, t);
    }
    forall k ensures DeliveryRecorded(d, s, k) {
      if k < |delivered| {
        assert DeliveryRecorded(delivered, status, k);
      } else if k < |d| {
        assert d[k].ticket == w[k - |delivered|];
        assert WaiterRecorded(loading, status, url, k - |delivered|);
      }
    }
    forall t ensures InvokedLogged(d, s, t) {
      assert InvokedLogged(delivered, status, t);
      assert WaitingListed(loading, status, t);
    }
    forall u ensures OneDownloadInFlight(downloads, completed + [url], l, u) {
      assert OneDownloadInFlight(downloads, completed, loading, u);
      CountSnoc(completed, url, u);
    }
  }

  /** The image the two tiers can give for `url` without a download: the
      memory tier first, then the file tier through the decoder (bytes that
      do not decode count as a miss). */
  function Lookup(images: map<Url, Image>, files: map<Url, Bytes>, decode: Bytes -> Option<Image>, url: Url): (r: Option<Image>)
    ensures url in images ==> r == Some(images[url])
    ensures r.Some? && url !in images ==> url in files && decode(files[url]) == r
    ensures r.None? ==> url !in images && (url in files ==> decode(files[url]).None?)
  {
    if url in images then Some(images[url])
    else if url in files then decode(files[url])
    else None
  }

  /** The order of the tiers, for all contents: an image in memory wins over
      any bytes on file; without one the file is consulted, so once memory is
      flushed the answer falls through to the decoded file; and with neither
      tier holding the URL there is no answer. */
  lemma TierOrder(images: map<Url, Image>, files: map<Url, Bytes>, decode: Bytes -> Option<Image>,
                  url: Url, image: Image, bytes: Bytes)
    ensures Lookup(images[url := image], files, decode, url) == Some(image)
    ensures url !in images ==> Lookup(images, files[url := bytes], decode, url) == decode(bytes)
    ensures Lookup(map[], files, decode, url) == if url in files then decode(files[url]) else None
    ensures url !in images && url !in files ==> Lookup(images, files, decode, url) == None
  {
  }

  class ImageCache {
    /** The memory tier: each URL's image as held in memory. */
    var images: map<Url, Image>
    /** The in-flight registry: for each URL with a download under way, the
        blocks waiting on it. */
    var loadingImages: map<Url, Loading>
    /** The file tier: the bytes cached on the local file system. */
    var files: map<Url, Bytes>
    /** Every block invocation so far, in order. */
    var delivered: seq<Delivery>
    /** Every download handed to the downloader so far, in order. */
    var downloads: seq<Url>
    /** The identity the next block passed in receives. */
    var nextTicket: Ticket
    /** The image decoder (UIImage from data); it may fail. */
    const decode: Bytes -> Option<Image>

    /** Where each block registered so far stands, indexed by its ticket. */
    ghost var status: seq<Status>
    /** Every download the downloader has answered, in order. */
    ghost var completed: seq<Url>

    /** The object invariant: every block is waiting for exactly one URL or has
        been invoked exactly once, and each URL has at most one download in
        flight, which is the one recorded in `loadingImages`. */
    ghost predicate Valid()
      reads this
    {
      nextTicket == |status| && Consistent(loadingImages, delivered, downloads, completed, status)
    }

    /** The shared instance when first created in a launch: nothing in memory
        and nothing in flight, and the file tier holding `onDisk`, the files
        that earlier launches left in the cache directory. */
    constructor (decode: Bytes -> Option<Image>, onDisk: map<Url, Bytes>)
      ensures Valid()
      ensures this.decode == decode
      ensures images == map[] && loadingImages == map[] && files == onDisk
      ensures delivered == [] && downloads == [] && completed == [] && nextTicket == 0
    {
      images, loadingImages, files := map[], map[], onDisk;
      delivered, downloads, nextTicket := [], [], 0;
      this.decode := decode;
      status, completed := [], [];
    }

    /** cachedImageWithURL: the image in memory for `url`, or nil if it has not
        been cached (yet, or since the last flush). */
    function CachedImageWithURL(url: Url): (r: Option<Image>)
      reads this
      ensures r.Some? <==> url in images
      ensures r.Some? ==> r.value == images[url]
    {
      if url in images then Some(images[url]) else None
    }

    /** cacheImage:withURL: inserts `image` into the memory tier, replacing any
        image stored under `url`; nothing else changes. */
    method CacheImage(image: Image, url: Url)
      requires Valid()
      modifies this
      ensures Valid()
      ensures images == old(images)[url := image]
      ensures CachedImageWithURL(url) == Some(image)
      ensures loadingImages == old(loadingImages) && files == old(files)
      ensures delivered == old(delivered) && downloads == old(downloads) && nextTicket == old(nextTicket)
      ensures completed == old(completed)
    {
      images := images[url := image];
    }

    /** flushMemory: removes every image from memory and no cached file. */
    method FlushMemory()
      requires Valid()
      modifies this
      ensures Valid()
      ensures images == map[]
      ensures forall u :: CachedImageWithURL(u) == None
      ensures loadingImages == old(loadingImages) && files == old(files)
      ensures delivered == old(delivered) && downloads == old(downloads) && nextTicket == old(nextTicket)
      ensures completed == old(completed)
    {
      images := map[];
    }

    /** imageFromURL:cacheInFile:usingBlock: registers a new block `t`. When a
        tier holds the image, the block is invoked with it at once (a file hit
        is loaded into memory). Otherwise the block waits for the URL's
        download, and a download is started only when none is in flight. The
        returned `now` holds the block invocations this call made. */
    method ImageFromURLCacheInFile(url: Url, cacheInFile: bool) returns (t: Ticket, now: seq<Delivery>)
      requires Valid()
      modifies this
      ensures Valid()
      ensures t == old(nextTicket) && nextTicket == t + 1
      ensures files == old(files) && delivered == old(delivered) + now && completed == old(completed)
      ensures var hit := Lookup(old(images), old(files), decode, url);
        hit.Some? ==>
        && now == [Delivery(t, hit)]
        && images == old(images)[url := hit.value]
        && loadingImages == old(loadingImages) && downloads == old(downloads)
      ensures var hit := Lookup(old(images), old(files), decode, url);
        hit.None? && url in old(loadingImages) ==>
        && now == [] && images == old(images) && downloads == old(downloads)
        && loadingImages == old(loadingImages)[url := Loading(old(loadingImages)[url].waiters + [t], old(loadingImages)[url].cacheInFile)]
      ensures var hit := Lookup(old(images), old(files), decode, url);
        hit.None? && url !in old(loadingImages) ==>
        && now == [] && images == old(images) && downloads == old(downloads) + [url]
        && loadingImages == old(loadingImages)[url := Loading([t], cacheInFile)]
    {
      t := nextTicket;
      var hit := Lookup(images, files, decode, url);
      if hit.Some? {
        ServeAtOnce(loadingImages, delivered, downloads, completed, status, hit);
        now := [Delivery(t, hit)];
        images := images[url := hit.value];
        status := status + [Invoked(|delivered|)];
        delivered := delivered + now;
      } else if url in loadingImages {
        AttachWaiter(loadingImages, delivered, downloads, completed, status, url);
        now := [];
        status := status + [Waiting(url, |loadingImages[url].waiters|)];
        loadingImages := loadingImages[url := Loading(loadingImages[url].waiters + [t], loadingImages[url].cacheInFile)];
      } else {
        StartDownload(loadingImages, delivered, downloads, completed, status, url, cacheInFile);
        now := [];
        status := status + [Waiting(url, 0)];
        loadingImages := loadingImages[url := Loading([t], cacheInFile)];
        downloads := downloads + [url];
      }
      nextTicket := nextTicket + 1;
    }

    /** imageFromURL:usingBlock: the same as above with the file tier enabled. */
    method ImageFromURL(url: Url) returns (t: Ticket, now: seq<Delivery>)
      requires Valid()
      modifies this
      ensures Valid()
      ensures t == old(nextTicket) && nextTicket == t + 1
      ensures files == old(files) && delivered == old(delivered) + now && completed == old(completed)
      ensures var hit := Lookup(old(images), old(files), decode, url);
        hit.Some? ==>
        && now == [Delivery(t, hit)]
        && images == old(images)[url := hit.value]
        && loadingImages == old(loadingImages) && downloads == old(downloads)
      ensures var hit := Lookup(old(images), old(files), decode, url);
        hit.None? && url in old(loadingImages) ==>
        && now == [] && images == old(images) && downloads == old(downloads)
        && loadingImages == old(loadingImages)[url := Loading(old(loadingImages)[url].waiters + [t], old(loadingImages)[url].cacheInFile)]
      ensures var hit := Lookup(old(images), old(files), decode, url);
        hit.None? && url !in old(loadingImages) ==>
        && now == [] && images == old(images) && downloads == old(downloads) + [url]
        && loadingImages == old(loadingImages)[url := Loading([t], true)]
    {
      t, now := ImageFromURLCacheInFile(url, true);
    }

    /** The downloader's answer for `url`, whose download is in flight. The
        registry entry is removed; a decoded image is stored in memory, and its
        bytes in the file tier when the download was started with cacheInFile;
        then every waiting block is invoked, in registration order, with the
        image or with nil. The returned `fanned` holds those invocations. */
    method DownloadCompleted(url: Url, data: Option<Bytes>) returns (fanned: seq<Delivery>)
      requires Valid()
      requires url in loadingImages
      modifies this
      ensures Valid()
      ensures fanned == Fanout(old(loadingImages[url].waiters), Outcome(decode, data))
      ensures delivered == old(delivered) + fanned
      ensures loadingImages == old(loadingImages) - {url}
      ensures images == if Outcome(decode, data).Some? then old(images)[url := Outcome(decode, data).value] else old(images)
      ensures files == if Outcome(decode, data).Some? && old(loadingImages[url].cacheInFile)
                       then old(files)[url := data.value] else old(files)
      ensures old(files).Keys <= files.Keys
      ensures downloads == old(downloads) && nextTicket == old(nextTicket)
      ensures completed == old(completed) + [url]
    {
      var entry := loadingImages[url];
      var result := Outcome(decode, data);
      FinishDownload(loadingImages, delivered, downloads, completed, status, url, result);
      status := Settle(status, url, |delivered|);
      loadingImages := loadingImages - {url};
      completed := completed + [url];
      if result.Some? {
        images := images[url := result.value];
        if entry.cacheInFile {
          files := files[url := data.value];
        }
      }
      fanned := InvokeBlocks(entry.waiters, result);
    }

    /** Invokes each block of `waiters` in turn with `result`: the last step
        of DownloadCompleted, after the registry entry has been removed. It is
        not an operation of the cache's interface, and on its own it does not
        keep the invariant. */
    method InvokeBlocks(waiters: seq<Ticket>, result: Option<Image>) returns (fanned: seq<Delivery>)
      modifies this`delivered
      ensures fanned == Fanout(waiters, result)
      ensures delivered == old(delivered) + fanned
    {
      fanned := [];
      var i := 0;
      while i < |waiters|
        invariant 0 <= i <= |waiters|
        invariant fanned == Fanout(waiters[..i], result)
        invariant delivered == old(delivered) + fanned
      {
        assert waiters[..i + 1][..i] == waiters[..i];
        var d := Delivery(waiters[i], result);
        fanned := fanned + [d];
        delivered := delivered + [d];
        i := i + 1;
      }
      assert waiters[..i] == waiters;
    }

    /** No block is invoked twice: the tickets in the delivery log are distinct. */
    lemma InvokedAtMostOnce()
      requires Valid()
      ensures forall i, j :: 0 <= i < j < |delivered| ==> delivered[i].ticket != delivered[j].ticket
    {
      forall i, j | 0 <= i < j < |delivered| ensures delivered[i].ticket != delivered[j].ticket {
        assert DeliveryRecorded(delivered, status, i);
        assert DeliveryRecorded(delivered, status, j);
      }
    }

    /** No block waits in two places, and an invoked block waits nowhere. */
    lemma WaitsInOnePlace(u: Url, i: nat, v: Url, j: nat)
      requires Valid()
      requires u in loadingImages && i < |loadingImages[u].waiters|
      requires v in loadingImages && j < |loadingImages[v].waiters|
      requires loadingImages[u].waiters[i] == loadingImages[v].waiters[j]
      ensures u == v && i == j
      ensures forall k :: 0 <= k < |delivered| ==> delivered[k].ticket != loadingImages[u].waiters[i]
    {
      assert WaiterRecorded(loadingImages, status, u, i);
      assert WaiterRecorded(loadingImages, status, v, j);
      forall k | 0 <= k < |delivered| ensures delivered[k].ticket != loadingImages[u].waiters[i] {
        assert DeliveryRecorded(delivered, status, k);
      }
    }

    /** Every waiting block was registered before: its ticket is below the
        next one to be handed out. */
    lemma WaitersIssued()
      requires Valid()
      ensures forall u, i :: WaiterIssued(loadingImages, nextTicket, u, i)
    {
      forall u, i ensures WaiterIssued(loadingImages, nextTicket, u, i) {
        assert WaiterRecorded(loadingImages, status, u, i);
      }
    }

    /** No block is lost: every block registered so far is either waiting for
        the download of some URL or has been invoked. */
    lemma NoBlockLost(t: Ticket)
      requires Valid()
      requires t < nextTicket
      ensures (exists u, i :: u in loadingImages && 0 <= i < |loadingImages[u].waiters| && loadingImages[u].waiters[i] == t)
           || (exists k :: 0 <= k < |delivered| && delivered[k].ticket == t)
    {
      assert WaitingListed(loadingImages, status, t);
      assert InvokedLogged(delivered, status, t);
      if status[t].Waiting? {
        var u, i := status[t].url, status[t].pos;
        assert u in loadingImages && 0 <= i < |loadingImages[u].waiters| && loadingImages[u].waiters[i] == t;
      } else {
        var k := status[t].at;
        assert 0 <= k < |delivered| && delivered[k].ticket == t;
      }
    }

    /** At most one download per URL is in flight: the downloads started for
        `url` outnumber the answers received for it by one while it is in the
        registry, and by none otherwise. */
    lemma AtMostOneDownloadInFlight(url: Url)
      requires Valid()
      ensures url in loadingImages ==> Count(downloads, url) == Count(completed, url) + 1
      ensures url !in loadingImages ==> Count(downloads, url) == Count(completed, url)
    {
      assert OneDownloadInFlight(downloads, completed, loadingImages, url);
    }
  }

  // Client runs: each starts from a freshly created cache and drives it
  // through one of the stories the interface documents.

  /** Several imageFromURL calls for one URL made before its download answers
      start exactly one download, and every caller's block is then invoked
      once, in call order, with the same result (nil on a failure). */
  method CoalescedRequests(decode: Bytes -> Option<Image>, url: Url, n: nat, data: Option<Bytes>)
    returns (tickets: seq<Ticket>, downloads: seq<Url>, log: seq<Delivery>)
    requires n > 0
    ensures |tickets| == n && forall i, j :: 0 <= i < j < n ==> tickets[i] != tickets[j]
    ensures downloads == [url]
    ensures log == Fanout(tickets, Outcome(decode, data))
  {
    var c := new ImageCache(decode, map[]);
    tickets := [];
    while |tickets| < n
      invariant c.Valid() && c.decode == decode
      invariant |tickets| <= n && c.nextTicket == |tickets|
      invariant forall i :: 0 <= i < |tickets| ==> tickets[i] == i
      invariant c.images == map[] && c.files == map[] && c.delivered == []
      invariant tickets == [] ==> c.loadingImages == map[] && c.downloads == []
      invariant tickets != [] ==> c.loadingImages == map[url := Loading(tickets, true)] && c.downloads == [url]
    {
      var t, now := c.ImageFromURL(url);
      assert tickets == [] ==> tickets + [t] == [t];
      assert map[url := Loading(tickets, true)][url := Loading(tickets + [t], true)]
          == map[url := Loading(tickets + [t], true)];
      tickets := tickets + [t];
    }
    var fanned := c.DownloadCompleted(url, data);
    downloads, log := c.downloads, c.delivered;
  }

  /** A failed download is not remembered: after the waiting blocks received
      nil, the next request for the URL starts a new download. */
  method RetryAfterFailure(decode: Bytes -> Option<Image>, url: Url)
    returns (downloads: seq<Url>, log: seq<Delivery>, waiting: seq<Ticket>)
    ensures downloads == [url, url]
    ensures log == [Delivery(0, None), Delivery(1, None)]
    ensures waiting == [2]
  {
    var c := new ImageCache(decode, map[]);
    var t0, n0 := c.ImageFromURL(url);
    var t1, n1 := c.ImageFromURL(url);
    var fanned := c.DownloadCompleted(url, None);
    var t2, n2 := c.ImageFromURL(url);
    downloads, log, waiting := c.downloads, c.delivered, c.loadingImages[url].waiters;
  }

  /** An image downloaded with the file tier enabled survives flushMemory: the
      next request is answered from the file, without a second download. */
  method FlushKeepsFiles(decode: Bytes -> Option<Image>, url: Url, data: Bytes)
    returns (downloads: seq<Url>, log: seq<Delivery>, cached: Option<Image>)
    requires decode(data).Some?
    ensures downloads == [url]
    ensures log == [Delivery(0, decode(data)), Delivery(1, decode(data))]
    ensures cached == decode(data)
  {
    var c := new ImageCache(decode, map[]);
    var t0, n0 := c.ImageFromURL(url);
    var fanned := c.DownloadCompleted(url, Some(data));
    c.FlushMemory();
    var t1, n1 := c.ImageFromURL(url);
    downloads, log, cached := c.downloads, c.delivered, c.CachedImageWithURL(url);
  }

  /** With cacheInFile == NO the image is kept in memory only: the file tier
      stays empty, and after flushMemory the image has to be downloaded again. */
  method MemoryOnlyDownload(decode: Bytes -> Option<Image>, url: Url, data: Bytes)
    returns (files: map<Url, Bytes>, downloads: seq<Url>, log: seq<Delivery>)
    requires decode(data).Some?
    ensures files == map[]
    ensures downloads == [url, url]
    ensures log == [Delivery(0, decode(data))]
  {
    var c := new ImageCache(decode, map[]);
    var t0, n0 := c.ImageFromURLCacheInFile(url, false);
    assert c.loadingImages == map[url := Loading([0], false)];
    var fanned := c.DownloadCompleted(url, Some(data));
    assert c.files == map[] && c.delivered == [Delivery(0, decode(data))] by {
      assert Fanout([0], decode(data)) == [Delivery(0, decode(data))];
    }
    c.FlushMemory();
    var t1, n1 := c.ImageFromURL(url);
    files, downloads, log := c.files, c.downloads, c.delivered;
  }

  /** cacheImage replaces what the cache holds for a URL, whatever the file
      tier holds: the inserted image is returned by cachedImageWithURL and
      handed to the next block, without a download. */
  method InsertedImageWins(decode: Bytes -> Option<Image>, url: Url, data: Bytes, image: Image)
    returns (cached: Option<Image>, downloads: seq<Url>, log: seq<Delivery>)
    requires decode(data).Some?
    ensures cached == Some(image)
    ensures downloads == [url]
    ensures log == [Delivery(0, decode(data)), Delivery(1, Some(image))]
  {
    var c := new ImageCache(decode, map[]);
    var t0, n0 := c.ImageFromURL(url);
    var fanned := c.DownloadCompleted(url, Some(data));
    c.CacheImage(image, url);
    cached := c.CachedImageWithURL(url);
    var t1, n1 := c.ImageFromURL(url);
    downloads, log := c.downloads, c.delivered;
  }

  /** A file that an earlier launch left in the cache directory answers the
      first request of a new launch at once when its bytes decode; bytes
      that do not decode count as a miss, and the image is downloaded. */
  method LeftoverFileServed(decode: Bytes -> Option<Image>, url: Url, bytes: Bytes)
    returns (downloads: seq<Url>, log: seq<Delivery>)
    ensures decode(bytes).Some? ==> downloads == [] && log == [Delivery(0, decode(bytes))]
    ensures decode(bytes).None? ==> downloads == [url] && log == []
  {
    var c := new ImageCache(decode, map[url := bytes]);
    assert Lookup(c.images, c.files, decode, url) == decode(bytes);
    var t, now := c.ImageFromURL(url);
    downloads, log := c.downloads, c.delivered;
  }
}
