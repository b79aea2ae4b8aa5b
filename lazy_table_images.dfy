/**
  MHLazyTableImages: binds table rows to images loaded through the shared
  MHImageCache.

  UIKit is left out: a cell is an identity that receives notifications, which
  are appended to `cellLog` (the placeholder being shown, and didLoadLazyImage
  with an image or nil). The table's data source calls
  `AddLazyImageForCell` while configuring a cell; the downloader's answers
  reach the table through `DownloadFinished`, which lets the cache invoke its
  waiting blocks and then runs the ones that belong to this table.
*/
module MHLazyTableImages {
  import opened Wrappers
  import opened MHImageCache

  /** A row of the table. */
  datatype IndexPath = IndexPath(section: nat, row: nat)

  /** The identity of a table view cell. */
  type CellId = nat

  /** What a cell is told: to show the placeholder image while its image
      loads, or didLoadLazyImage with the image (nil if loading failed). */
  datatype CellEvent =
    | ShowPlaceholder(cell: CellId, placeholder: Option<Image>)
    | DidLoadLazyImage(cell: CellId, image: Option<Image>)

  /** MHLazyTableImagesDelegate: the URL of each row, and the optional
      post-processing of a loaded image (None when the delegate does not
      implement postProcessLazyImage:forIndexPath:). */
  datatype Delegate = Delegate(urlFor: IndexPath -> Url, postProcess: Option<(Image, IndexPath) -> Image>)

  /** What a block registered by the table remembers: the cell to notify, the
      row it was configured for and the URL that row had. */
  datatype Request = Request(cell: CellId, path: IndexPath, url: Url)

  /** The image a block of the table hands on for the cache's `result`: nil
      stays nil; an image is post-processed when the delegate does that. */
  function Processed(d: Delegate, path: IndexPath, result: Option<Image>): (r: Option<Image>)
    ensures r.None? <==> result.None?
    ensures result.Some? && d.postProcess.None? ==> r == result
    ensures result.Some? && d.postProcess.Some? ==> r == Some(d.postProcess.value(result.value, path))
  {
    match result
    case None => None
    case Some(image) =>
      match d.postProcess
      case None => Some(image)
      case Some(f) => Some(f(image, path))
  }

  /** What the table's block for delivery `x` tells its cell; nothing when
      `x` belongs to another client of the cache. */
  function Notice(x: Delivery, requests: map<Ticket, Request>, d: Delegate): seq<CellEvent>
  {
    if x.ticket in requests
    then [DidLoadLazyImage(requests[x.ticket].cell, Processed(d, requests[x.ticket].path, x.image))]
    else []
  }

  /** The notifications the table's blocks among `ds` give, in order. */
  function Notifications(ds: seq<Delivery>, requests: map<Ticket, Request>, d: Delegate): seq<CellEvent>
  {
    if ds == [] then []
    else Notifications(ds[..|ds| - 1], requests, d) + Notice(ds[|ds| - 1], requests, d)
  }

  /** The memory tier after the table's blocks among `ds` have run: each block
      that post-processes an image inserts the result under its URL. */
  function CacheAfter(images: map<Url, Image>, ds: seq<Delivery>, requests: map<Ticket, Request>, d: Delegate): map<Url, Image>
  {
    if ds == [] then images
    else
      var before := CacheAfter(images, ds[..|ds| - 1], requests, d);
      var x := ds[|ds| - 1];
      if x.ticket in requests && x.image.Some? && d.postProcess.Some?
      then before[requests[x.ticket].url := d.postProcess.value(x.image.value, requests[x.ticket].path)]
      else before
  }

  /** Every notification in `n` is didLoadLazyImage with nil. */
  predicate AllNil(n: seq<CellEvent>)
  {
    forall i :: 0 <= i < |n| ==> n[i].DidLoadLazyImage? && n[i].image == None
  }

  /** Nil notifications stay nil when put together. */
  lemma AllNilConcat(a: seq<CellEvent>, b: seq<CellEvent>)
    requires AllNil(a) && AllNil(b)
    ensures AllNil(a + b)
  {
    forall i | 0 <= i < |a + b|
      ensures (a + b)[i].DidLoadLazyImage? && (a + b)[i].image == None
    {
      if i >= |a| {
        assert (a + b)[i] == b[i - |a|];
      }
    }
  }

  /** On a failed download every cell the table notifies receives nil. */
  lemma {:induction false} FailureNotifiesNil(waiters: seq<Ticket>, requests: map<Ticket, Request>, d: Delegate)
    ensures AllNil(Notifications(Fanout(waiters, None), requests, d))
  {
    if waiters != [] {
      var init := waiters[..|waiters| - 1];
      FailureNotifiesNil(init, requests, d);
      var ds := Fanout(waiters, None);
      assert ds[..|ds| - 1] == Fanout(init, None);
      var last := Notice(ds[|ds| - 1], requests, d);
      assert ds[|ds| - 1].image == None;
      assert AllNil(last);
      AllNilConcat(Notifications(Fanout(init, None), requests, d), last);
    }
  }

  /** When every waiting block belongs to the table, the cells are told in
      the order their blocks were registered, one notification per block,
      each with the (post-processed) result. */
  lemma {:induction false} NotifiedInOrder(waiters: seq<Ticket>, result: Option<Image>,
                                           requests: map<Ticket, Request>, d: Delegate)
    requires forall i :: 0 <= i < |waiters| ==> waiters[i] in requests
    ensures |Notifications(Fanout(waiters, result), requests, d)| == |waiters|
    ensures forall i :: 0 <= i < |waiters| ==>
      Notifications(Fanout(waiters, result), requests, d)[i]
        == DidLoadLazyImage(requests[waiters[i]].cell, Processed(d, requests[waiters[i]].path, result))
  {
    if waiters != [] {
      var init := waiters[..|waiters| - 1];
      NotifiedInOrder(init, result, requests, d);
      var ds := Fanout(waiters, result);
      assert ds[..|ds| - 1] == Fanout(init, result);
      var before := Notifications(Fanout(init, result), requests, d);
      var n := Notifications(ds, requests, d);
      assert n == before + Notice(ds[|ds| - 1], requests, d);
      forall i | 0 <= i < |waiters|
        ensures n[i] == DidLoadLazyImage(requests[waiters[i]].cell, Processed(d, requests[waiters[i]].path, result))
      {
        if i < |init| {
          assert n[i] == before[i] && init[i] == waiters[i];
        }
      }
    }
  }

  /** Every block of the table among `ds` notifies its own cell, with the
      (post-processed) image it was given or nil. */
  lemma {:induction false} EveryRequestNotified(ds: seq<Delivery>, requests: map<Ticket, Request>, d: Delegate, k: nat)
    requires k < |ds| && ds[k].ticket in requests
    ensures DidLoadLazyImage(requests[ds[k].ticket].cell, Processed(d, requests[ds[k].ticket].path, ds[k].image))
            in Notifications(ds, requests, d)
  {
    var init := ds[..|ds| - 1];
    if k < |ds| - 1 {
      EveryRequestNotified(init, requests, d, k);
    }
  }

  /** How many deliveries in `ds` run one of the table's blocks. */
  function OwnCount(ds: seq<Delivery>, requests: map<Ticket, Request>): (n: nat)
    ensures n <= |ds|
  {
    if ds == [] then 0
    else OwnCount(ds[..|ds| - 1], requests) + (if ds[|ds| - 1].ticket in requests then 1 else 0)
  }

  /** Only the table's own blocks notify cells: one notification per delivery
      that belongs to the table, and none for other clients' deliveries. Every
      notification is the one a delivery to the table's blocks gives: its
      cell, told of its (post-processed) image or nil. */
  lemma {:induction false} OnlyOwnBlocksNotify(ds: seq<Delivery>, requests: map<Ticket, Request>, d: Delegate)
    ensures (forall k :: 0 <= k < |ds| ==> ds[k].ticket !in requests) ==> Notifications(ds, requests, d) == []
    ensures |Notifications(ds, requests, d)| == OwnCount(ds, requests) <= |ds|
    ensures forall e :: e in Notifications(ds, requests, d) ==>
      exists k :: 0 <= k < |ds| && ds[k].ticket in requests &&
        e == DidLoadLazyImage(requests[ds[k].ticket].cell, Processed(d, requests[ds[k].ticket].path, ds[k].image))
  {
    if ds != [] {
      var init := ds[..|ds| - 1];
      var last := |ds| - 1;
      OnlyOwnBlocksNotify(init, requests, d);
      var n := Notifications(ds, requests, d);
      assert n == Notifications(init, requests, d) + Notice(ds[last], requests, d);
      forall e | e in n
        ensures exists k :: 0 <= k < |ds| && ds[k].ticket in requests &&
                  e == DidLoadLazyImage(requests[ds[k].ticket].cell, Processed(d, requests[ds[k].ticket].path, ds[k].image))
      {
        if e in Notifications(init, requests, d) {
          var k :| 0 <= k < |init| && init[k].ticket in requests &&
            e == DidLoadLazyImage(requests[init[k].ticket].cell, Processed(d, requests[init[k].ticket].path, init[k].image));
          assert ds[k] == init[k];
        } else {
          assert e in Notice(ds[last], requests, d);
        }
      }
    }
  }

  /** Delivery `k` of `ds` runs one of the table's blocks with an image. */
  ghost predicate Stores(ds: seq<Delivery>, requests: map<Ticket, Request>, k: int)
  {
    0 <= k < |ds| && ds[k].ticket in requests && ds[k].image.Some?
  }

  /** Delivery `k` is the last of `ds` that runs one of the table's blocks
      with an image. */
  ghost predicate LastStore(ds: seq<Delivery>, requests: map<Ticket, Request>, k: int)
  {
    Stores(ds, requests, k) && forall j :: k < j < |ds| ==> !Stores(ds, requests, j)
  }

  /** When the delegate post-processes images and the table's blocks among
      `ds` are all for `url`, every other URL keeps its entry. */
  lemma {:induction false} PostProcessedKeepsOthers(images: map<Url, Image>, ds: seq<Delivery>,
                                                    requests: map<Ticket, Request>, d: Delegate, url: Url)
    requires d.postProcess.Some?
    requires forall k :: 0 <= k < |ds| && ds[k].ticket in requests ==> requests[ds[k].ticket].url == url
    ensures forall u :: u != url ==> (u in CacheAfter(images, ds, requests, d) <==> u in images)
    ensures forall u :: u != url && u in images ==> CacheAfter(images, ds, requests, d)[u] == images[u]
  {
    if ds != [] {
      PostProcessedKeepsOthers(images, ds[..|ds| - 1], requests, d, url);
    }
  }

  /** When the delegate post-processes images and the table's blocks among
      `ds` are all for `url`, the cache then holds, under `url`, the
      post-processed image of the last of those deliveries that carries an
      image, if there is one. */
  lemma {:induction false} PostProcessedReplacesOriginal(images: map<Url, Image>, ds: seq<Delivery>,
                                                         requests: map<Ticket, Request>, d: Delegate, url: Url)
    requires d.postProcess.Some?
    requires forall k :: 0 <= k < |ds| && ds[k].ticket in requests ==> requests[ds[k].ticket].url == url
    ensures (exists k :: Stores(ds, requests, k)) ==>
      exists k :: LastStore(ds, requests, k) &&
        url in CacheAfter(images, ds, requests, d) &&
        CacheAfter(images, ds, requests, d)[url] == d.postProcess.value(ds[k].image.value, requests[ds[k].ticket].path)
  {
    if ds != [] {
      var init := ds[..|ds| - 1];
      var last := |ds| - 1;
      if Stores(ds, requests, last) {
        assert LastStore(ds, requests, last);
        assert CacheAfter(images, ds, requests, d)[url]
            == d.postProcess.value(ds[last].image.value, requests[ds[last].ticket].path);
      } else if exists k :: Stores(ds, requests, k) {
        var k :| Stores(ds, requests, k);
        assert Stores(init, requests, k) by { assert init[k] == ds[k]; }
        PostProcessedReplacesOriginal(images, init, requests, d, url);
        var j :| LastStore(init, requests, j) &&
          url in CacheAfter(images, init, requests, d) &&
          CacheAfter(images, init, requests, d)[url] == d.postProcess.value(init[j].image.value, requests[init[j].ticket].path);
        assert ds[j] == init[j];
        forall i | j < i < |ds|
          ensures !Stores(ds, requests, i)
        {
          if i < |init| {
            assert ds[i] == init[i];
            assert !Stores(init, requests, i);
          }
        }
        assert LastStore(ds, requests, j);
      }
    }
  }

  /** The table's blocks running after the download of `url` finished with
      `result`, over the memory tier `base`: no other URL's entry changes,
      and with post-processing the processed image of the last of the
      table's waiters is stored under `url`. */
  lemma Finished(loading: map<Url, Loading>, requests: map<Ticket, Request>, url: Url,
                 base: map<Url, Image>, result: Option<Image>, d: Delegate)
    requires url in loading
    requires forall u, i :: RequestFor(loading, requests, u, i)
    ensures var after := CacheAfter(base, Fanout(loading[url].waiters, result), requests, d);
      forall u :: u != url ==> (u in after <==> u in base)
    ensures var after := CacheAfter(base, Fanout(loading[url].waiters, result), requests, d);
      forall u :: u != url && u in base ==> after[u] == base[u]
    ensures var w := loading[url].waiters;
      var after := CacheAfter(base, Fanout(w, result), requests, d);
      d.postProcess.Some? && result.Some? && (exists i :: 0 <= i < |w| && w[i] in requests) ==>
        && url in after
        && exists i :: 0 <= i < |w| && w[i] in requests && (forall j :: i < j < |w| ==> w[j] !in requests) &&
             after[url] == d.postProcess.value(result.value, requests[w[i]].path)
  {
    var w := loading[url].waiters;
    var fanned := Fanout(w, result);
    if d.postProcess.Some? {
      forall k | 0 <= k < |fanned| && fanned[k].ticket in requests
        ensures requests[fanned[k].ticket].url == url
      {
        assert fanned[k].ticket == w[k];
        assert RequestFor(loading, requests, url, k);
      }
      PostProcessedKeepsOthers(base, fanned, requests, d, url);
      PostProcessedReplacesOriginal(base, fanned, requests, d, url);
      if result.Some? && exists i :: 0 <= i < |w| && w[i] in requests {
        var i :| 0 <= i < |w| && w[i] in requests;
        assert Stores(fanned, requests, i);
        var k :| LastStore(fanned, requests, k) &&
          url in CacheAfter(base, fanned, requests, d) &&
          CacheAfter(base, fanned, requests, d)[url] == d.postProcess.value(fanned[k].image.value, requests[fanned[k].ticket].path);
        assert fanned[k].ticket == w[k] && fanned[k].image == result;
        forall j | k < j < |w|
          ensures w[j] !in requests
        {
          assert !Stores(fanned, requests, j) && fanned[j].ticket == w[j];
        }
      }
    } else {
      NoPostProcessNoChange(base, fanned, requests, d);
    }
  }

  /** Without post-processing the table's blocks leave the memory tier as it is. */
  lemma {:induction false} NoPostProcessNoChange(images: map<Url, Image>, ds: seq<Delivery>,
                                                 requests: map<Ticket, Request>, d: Delegate)
    requires d.postProcess.None?
    ensures CacheAfter(images, ds, requests, d) == images
  {
    if ds != [] {
      NoPostProcessNoChange(images, ds[..|ds| - 1], requests, d);
    }
  }

  /** The `i`-th waiter of `u`, if it is a block of the table, was registered
      for `u`. */
  ghost predicate RequestFor(loading: map<Url, Loading>, requests: map<Ticket, Request>, u: Url, i: int)
  {
    u in loading && 0 <= i < |loading[u].waiters| && loading[u].waiters[i] in requests ==>
      requests[loading[u].waiters[i]].url == u
  }

  /** Registering a new block `t` for `url` (recorded as `req`) keeps every waiting block of the
      table filed under its own URL, whether the block is served at once
      (`after == loading`), attached to the download in flight, or the first
      waiter of a new download. */
  lemma Registered(loading: map<Url, Loading>, after: map<Url, Loading>, requests: map<Ticket, Request>,
                   url: Url, t: Ticket, req: Request, recorded: map<Ticket, Request>)
    requires forall u, i :: RequestFor(loading, requests, u, i)
    requires forall u, i :: WaiterIssued(loading, t, u, i)
    requires req.url == url && recorded == requests[t := req]
    requires after == loading ||
      (url in after && after == loading[url := after[url]] &&
       after[url].waiters == (if url in loading then loading[url].waiters else []) + [t])
    ensures forall u, i :: RequestFor(after, recorded, u, i)
  {
    forall u, i ensures RequestFor(after, recorded, u, i) {
      assert RequestFor(loading, requests, u, i);
      assert WaiterIssued(loading, t, u, i);
      if u in after && 0 <= i < |after[u].waiters| && u == url && after != loading {
        var prefix := if url in loading then loading[url].waiters else [];
        if i < |prefix| {
          assert after[u].waiters[i] == loading[u].waiters[i];
        }
      }
    }
  }

  /** Removing the registry entry of `url` keeps every other waiting block of
      the table filed under its own URL. */
  lemma Unregistered(loading: map<Url, Loading>, requests: map<Ticket, Request>, url: Url)
    requires forall u, i :: RequestFor(loading, requests, u, i)
    ensures forall u, i :: RequestFor(loading - {url}, requests, u, i)
  {
    forall u, i ensures RequestFor(loading - {url}, requests, u, i) {
      assert RequestFor(loading, requests, u, i);
    }
  }

  class LazyTableImages {
    /** The shared image cache the table loads its images through. */
    const cache: ImageCache
    /** Who maps rows to URLs and may post-process the loaded images. */
    var delegate: Delegate
    /** What a cell shows until its row's image arrives. */
    var placeholderImage: Option<Image>
    /** The URL the delegate gave for each row configured so far. */
    var rowURLs: map<IndexPath, Url>
    /** What each block the table has passed to the cache remembers. */
    var requests: map<Ticket, Request>
    /** Every notification given to a cell so far, in order. */
    var cellLog: seq<CellEvent>

    /** The table's invariant: the cache keeps its own; every block of the
        table has been registered with the cache; and a block of the table that
        waits in the registry waits under the URL it was registered for. */
    ghost predicate Valid()
      reads this, cache
    {
      && cache.Valid()
      && (forall t :: t in requests ==> t < cache.nextTicket)
      && (forall u, i :: RequestFor(cache.loadingImages, requests, u, i))
    }

    /** A table object on top of `cache`, with nothing configured yet. */
    constructor (cache: ImageCache, delegate: Delegate, placeholderImage: Option<Image>)
      requires cache.Valid()
      ensures Valid()
      ensures this.cache == cache && this.delegate == delegate && this.placeholderImage == placeholderImage
      ensures rowURLs == map[] && requests == map[] && cellLog == []
    {
      this.cache := cache;
      this.delegate := delegate;
      this.placeholderImage := placeholderImage;
      rowURLs, requests, cellLog := map[], map[], [];
    }

    /** The internal step of RegisterBlock and DownloadFinished that
        runs, in order, the table's own blocks among the invocations `ds` the
        cache has just made: each notifies its cell with the image or nil, and
        a post-processed image is first inserted into the cache under the
        block's URL. Invocations of other clients' blocks are skipped. */
    method RunBlocks(ds: seq<Delivery>)
      requires Valid()
      modifies this`cellLog, cache
      ensures Valid()
      ensures cellLog == old(cellLog) + Notifications(ds, requests, delegate)
      ensures cache.images == CacheAfter(old(cache.images), ds, requests, delegate)
      ensures cache.loadingImages == old(cache.loadingImages) && cache.files == old(cache.files)
      ensures cache.delivered == old(cache.delivered) && cache.downloads == old(cache.downloads)
      ensures cache.nextTicket == old(cache.nextTicket)
      ensures cache.completed == old(cache.completed)
    {
      var i := 0;
      while i < |ds|
        invariant 0 <= i <= |ds|
        invariant Valid()
        invariant cellLog == old(cellLog) + Notifications(ds[..i], requests, delegate)
        invariant cache.images == CacheAfter(old(cache.images), ds[..i], requests, delegate)
        invariant cache.loadingImages == old(cache.loadingImages) && cache.files == old(cache.files)
        invariant cache.delivered == old(cache.delivered) && cache.downloads == old(cache.downloads)
        invariant cache.completed == old(cache.completed)
        invariant cache.nextTicket == old(cache.nextTicket)
      {
        assert ds[..i + 1][..i] == ds[..i];
        var x := ds[i];
        if x.ticket in requests {
          var r := requests[x.ticket];
          var shown := Processed(delegate, r.path, x.image);
          if x.image.Some? && delegate.postProcess.Some? {
            cache.CacheImage(shown.value, r.url);
          }
          cellLog := cellLog + [DidLoadLazyImage(r.cell, shown)];
        }
        i := i + 1;
      }
      assert ds[..i] == ds;
    }

    /** addLazyImageForCell:withIndexPath: asks the delegate for the row's URL
        and records it. An image in the cache's memory goes to the cell at
        once and no block is registered. Otherwise the cell shows the
        placeholder and a block for this cell and row is passed to
        imageFromURL:usingBlock:, which answers it from the file tier, attaches
        it to the download in flight, or starts a download. */
    method AddLazyImageForCell(cell: CellId, path: IndexPath)
      requires Valid()
      modifies this, cache
      ensures Valid()
      ensures delegate == old(delegate) && placeholderImage == old(placeholderImage)
      ensures rowURLs == old(rowURLs)[path := delegate.urlFor(path)]
      ensures cache.files == old(cache.files) && cache.completed == old(cache.completed)
      ensures var url := delegate.urlFor(path);
        url in old(cache.images) ==>
        && cellLog == old(cellLog) + [DidLoadLazyImage(cell, Some(old(cache.images)[url]))]
        && requests == old(requests)
        && cache.images == old(cache.images) && cache.loadingImages == old(cache.loadingImages)
        && cache.delivered == old(cache.delivered) && cache.downloads == old(cache.downloads)
        && cache.nextTicket == old(cache.nextTicket)
      ensures var url := delegate.urlFor(path);
        url !in old(cache.images) ==>
        && requests == old(requests)[old(cache.nextTicket) := Request(cell, path, url)]
        && cache.nextTicket == old(cache.nextTicket) + 1
      ensures var url := delegate.urlFor(path);
        var hit := Lookup(old(cache.images), old(cache.files), cache.decode, url);
        url !in old(cache.images) && hit.Some? ==>
        && cellLog == old(cellLog) + [ShowPlaceholder(cell, placeholderImage), DidLoadLazyImage(cell, Processed(delegate, path, hit))]
        && cache.images == old(cache.images)[url := Processed(delegate, path, hit).value]
        && cache.delivered == old(cache.delivered) + [Delivery(old(cache.nextTicket), hit)]
        && cache.loadingImages == old(cache.loadingImages) && cache.downloads == old(cache.downloads)
      ensures var url := delegate.urlFor(path);
        Lookup(old(cache.images), old(cache.files), cache.decode, url).None? ==>
        && cellLog == old(cellLog) + [ShowPlaceholder(cell, placeholderImage)]
        && cache.images == old(cache.images) && cache.delivered == old(cache.delivered)
      ensures var url := delegate.urlFor(path);
        Lookup(old(cache.images), old(cache.files), cache.decode, url).None? && url in old(cache.loadingImages) ==>
        && cache.downloads == old(cache.downloads)
        && cache.loadingImages == old(cache.loadingImages)[url :=
             Loading(old(cache.loadingImages)[url].waiters + [old(cache.nextTicket)], old(cache.loadingImages)[url].cacheInFile)]
      ensures var url := delegate.urlFor(path);
        Lookup(old(cache.images), old(cache.files), cache.decode, url).None? && url !in old(cache.loadingImages) ==>
        && cache.downloads == old(cache.downloads) + [url]
        && cache.loadingImages == old(cache.loadingImages)[url := Loading([old(cache.nextTicket)], true)]
    {
      var url := delegate.urlFor(path);
      rowURLs := rowURLs[path := url];
      var image := cache.CachedImageWithURL(url);
      if image.Some? {
        cellLog := cellLog + [DidLoadLazyImage(cell, image)];
      } else {
        cellLog := cellLog + [ShowPlaceholder(cell, placeholderImage)];
        RegisterBlock(cell, path, url);
      }
    }

    /** The internal step of AddLazyImageForCell for a row whose image is not
        in memory: the block for `cell` and `path` is registered in `requests`
        and passed to imageFromURL:usingBlock:, and runs at once when the file
        tier has the image. */
    method RegisterBlock(cell: CellId, path: IndexPath, url: Url)
      requires Valid()
      requires url !in cache.images
      modifies this`requests, this`cellLog, cache
      ensures Valid()
      ensures requests == old(requests)[old(cache.nextTicket) := Request(cell, path, url)]
      ensures cache.nextTicket == old(cache.nextTicket) + 1 && cache.files == old(cache.files)
      ensures cache.completed == old(cache.completed)
      ensures var hit := Lookup(old(cache.images), old(cache.files), cache.decode, url);
        hit.Some? ==>
        && cellLog == old(cellLog) + [DidLoadLazyImage(cell, Processed(delegate, path, hit))]
        && cache.images == old(cache.images)[url := Processed(delegate, path, hit).value]
        && cache.delivered == old(cache.delivered) + [Delivery(old(cache.nextTicket), hit)]
        && cache.loadingImages == old(cache.loadingImages) && cache.downloads == old(cache.downloads)
      ensures var hit := Lookup(old(cache.images), old(cache.files), cache.decode, url);
        hit.None? ==>
        && cellLog == old(cellLog) && cache.images == old(cache.images) && cache.delivered == old(cache.delivered)
      ensures var hit := Lookup(old(cache.images), old(cache.files), cache.decode, url);
        hit.None? && url in old(cache.loadingImages) ==>
        && cache.downloads == old(cache.downloads)
        && cache.loadingImages == old(cache.loadingImages)[url :=
             Loading(old(cache.loadingImages)[url].waiters + [old(cache.nextTicket)], old(cache.loadingImages)[url].cacheInFile)]
      ensures var hit := Lookup(old(cache.images), old(cache.files), cache.decode, url);
        hit.None? && url !in old(cache.loadingImages) ==>
        && cache.downloads == old(cache.downloads) + [url]
        && cache.loadingImages == old(cache.loadingImages)[url := Loading([old(cache.nextTicket)], true)]
    {
      ghost var loading := cache.loadingImages;
      cache.WaitersIssued();
      var t, now := cache.ImageFromURL(url);
      var recorded := requests[t := Request(cell, path, url)];
      Registered(loading, cache.loadingImages, requests, url, t, Request(cell, path, url), recorded);
      requests := recorded;
      RunBlocks(now);
    }

    /** The downloader's answer for `url`, whose download is in flight: the
        cache stores the image and invokes every waiting block, and the
        table's own blocks then notify their cells. With post-processing, the
        processed image of the last of the table's waiters replaces the
        original under `url`, and no other URL's image changes. */
    method DownloadFinished(url: Url, data: Option<Bytes>)
      requires Valid()
      requires url in cache.loadingImages
      modifies this, cache
      ensures Valid()
      ensures delegate == old(delegate) && placeholderImage == old(placeholderImage)
      ensures rowURLs == old(rowURLs) && requests == old(requests)
      ensures cellLog == old(cellLog)
        + Notifications(Fanout(old(cache.loadingImages[url].waiters), Outcome(cache.decode, data)), requests, delegate)
      ensures cache.images == CacheAfter(
        if Outcome(cache.decode, data).Some? then old(cache.images)[url := Outcome(cache.decode, data).value] else old(cache.images),
        Fanout(old(cache.loadingImages[url].waiters), Outcome(cache.decode, data)), requests, delegate)
      ensures cache.files == if Outcome(cache.decode, data).Some? && old(cache.loadingImages[url].cacheInFile)
                             then old(cache.files)[url := data.value] else old(cache.files)
      ensures cache.loadingImages == old(cache.loadingImages) - {url}
      ensures cache.delivered == old(cache.delivered)
        + Fanout(old(cache.loadingImages[url].waiters), Outcome(cache.decode, data))
      ensures cache.downloads == old(cache.downloads) && cache.nextTicket == old(cache.nextTicket)
      ensures cache.completed == old(cache.completed) + [url]
      ensures forall u :: u != url ==> (u in cache.images <==> u in old(cache.images))
      ensures forall u :: u != url && u in old(cache.images) ==> cache.images[u] == old(cache.images)[u]
      ensures var w := old(cache.loadingImages[url].waiters);
        var result := Outcome(cache.decode, data);
        delegate.postProcess.Some? && result.Some? && (exists i :: 0 <= i < |w| && w[i] in requests) ==>
          && url in cache.images
          && exists i :: 0 <= i < |w| && w[i] in requests && (forall j :: i < j < |w| ==> w[j] !in requests) &&
               cache.images[url] == delegate.postProcess.value(result.value, requests[w[i]].path)
    {
      ghost var loading := cache.loadingImages;
      var fanned := cache.DownloadCompleted(url, data);
      ghost var base := cache.images;
      Unregistered(loading, requests, url);
      RunBlocks(fanned);
      Finished(loading, requests, url, base, Outcome(cache.decode, data), delegate);
    }
  }

  // Scenarios: each runs a fresh cache and table through a sequence of
  // calls and states what the cells were told and what was downloaded.

  /** A row whose image is in memory is shown at once and nothing is
      downloaded. */
  method CachedRowShownAtOnce(decode: Bytes -> Option<Image>, urlFor: IndexPath -> Url,
                              image: Image, placeholder: Option<Image>, cell: CellId, path: IndexPath)
    returns (downloads: seq<Url>, log: seq<CellEvent>)
    ensures downloads == []
    ensures log == [DidLoadLazyImage(cell, Some(image))]
  {
    var c := new ImageCache(decode, map[]);
    c.CacheImage(image, urlFor(path));
    var table := new LazyTableImages(c, Delegate(urlFor, None), placeholder);
    table.AddLazyImageForCell(cell, path);
    downloads, log := c.downloads, table.cellLog;
  }

  /** A row configured on a fresh table: the cell shows the placeholder and
      its block waits on the one download started for the row's URL. */
  method RowRegistered(decode: Bytes -> Option<Image>, d: Delegate,
                       placeholder: Option<Image>, cell: CellId, path: IndexPath)
    returns (table: LazyTableImages)
    ensures fresh(table) && fresh(table.cache) && table.Valid()
    ensures table.delegate == d && table.placeholderImage == placeholder
    ensures table.cache.decode == decode
    ensures table.cache.images == map[] && table.cache.files == map[]
    ensures table.cache.loadingImages == map[d.urlFor(path) := Loading([0], true)]
    ensures table.cache.downloads == [d.urlFor(path)] && table.cache.nextTicket == 1
    ensures table.cellLog == [ShowPlaceholder(cell, placeholder)]
    ensures 0 in table.requests && table.requests[0] == Request(cell, path, d.urlFor(path))
  {
    var c := new ImageCache(decode, map[]);
    table := new LazyTableImages(c, d, placeholder);
    assert Lookup(c.images, c.files, decode, d.urlFor(path)) == None;
    table.AddLazyImageForCell(cell, path);
  }

  /** A row configured on a fresh table whose download then fails: the cell
      is told nil and nothing is left behind in the cache. */
  method RowFailed(decode: Bytes -> Option<Image>, urlFor: IndexPath -> Url,
                   placeholder: Option<Image>, cell: CellId, path: IndexPath)
    returns (table: LazyTableImages)
    ensures fresh(table) && fresh(table.cache) && table.Valid()
    ensures table.delegate == Delegate(urlFor, None) && table.placeholderImage == placeholder
    ensures table.cache.decode == decode
    ensures Lookup(table.cache.images, table.cache.files, decode, urlFor(path)) == None
    ensures table.cache.loadingImages == map[]
    ensures table.cache.downloads == [urlFor(path)]
    ensures table.cellLog == [ShowPlaceholder(cell, placeholder), DidLoadLazyImage(cell, None)]
  {
    table := RowRegistered(decode, Delegate(urlFor, None), placeholder, cell, path);
    table.DownloadFinished(urlFor(path), None);
    NoPostProcessNoChange(map[], Fanout([0], None), table.requests, table.delegate);
    NotifiedInOrder([0], None, table.requests, table.delegate);
  }

  /** A row whose image fails to load gets nil; when the cell is configured
      again for that row the download is tried again. */
  method FailedRowRetried(decode: Bytes -> Option<Image>, urlFor: IndexPath -> Url,
                          placeholder: Option<Image>, cell: CellId, path: IndexPath)
    returns (downloads: seq<Url>, log: seq<CellEvent>)
    ensures downloads == [urlFor(path), urlFor(path)]
    ensures log == [ShowPlaceholder(cell, placeholder), DidLoadLazyImage(cell, None), ShowPlaceholder(cell, placeholder)]
  {
    var table := RowFailed(decode, urlFor, placeholder, cell, path);
    table.AddLazyImageForCell(cell, path);
    downloads, log := table.cache.downloads, table.cellLog;
  }

  /** Two rows with the same URL, configured on a fresh table: the second
      block joins the first one's download. */
  method RowsWaiting(decode: Bytes -> Option<Image>, urlFor: IndexPath -> Url, placeholder: Option<Image>,
                     cell1: CellId, path1: IndexPath, cell2: CellId, path2: IndexPath)
    returns (table: LazyTableImages)
    requires urlFor(path1) == urlFor(path2)
    ensures fresh(table) && fresh(table.cache) && table.Valid()
    ensures table.delegate == Delegate(urlFor, None) && table.cache.decode == decode
    ensures table.cache.loadingImages == map[urlFor(path1) := Loading([0, 1], true)]
    ensures table.cache.downloads == [urlFor(path1)]
    ensures table.cellLog == [ShowPlaceholder(cell1, placeholder), ShowPlaceholder(cell2, placeholder)]
    ensures 0 in table.requests && 1 in table.requests
    ensures table.requests[0] == Request(cell1, path1, urlFor(path1)) && table.requests[1] == Request(cell2, path2, urlFor(path2))
  {
    table := RowRegistered(decode, Delegate(urlFor, None), placeholder, cell1, path1);
    assert Lookup(table.cache.images, table.cache.files, decode, urlFor(path2)) == None;
    table.AddLazyImageForCell(cell2, path2);
    assert table.cache.loadingImages[urlFor(path1)].waiters == [0, 1];
  }

  /** Two rows with the same URL share one download, and both cells get the
      image when it arrives. */
  method RowsShareDownload(decode: Bytes -> Option<Image>, urlFor: IndexPath -> Url, placeholder: Option<Image>,
                           cell1: CellId, path1: IndexPath, cell2: CellId, path2: IndexPath, data: Bytes)
    returns (downloads: seq<Url>, log: seq<CellEvent>)
    requires urlFor(path1) == urlFor(path2)
    ensures downloads == [urlFor(path1)]
    ensures log == [ShowPlaceholder(cell1, placeholder), ShowPlaceholder(cell2, placeholder),
                    DidLoadLazyImage(cell1, decode(data)), DidLoadLazyImage(cell2, decode(data))]
  {
    var table := RowsWaiting(decode, urlFor, placeholder, cell1, path1, cell2, path2);
    table.DownloadFinished(urlFor(path1), Some(data));
    NotifiedInOrder([0, 1], decode(data), table.requests, table.delegate);
    downloads, log := table.cache.downloads, table.cellLog;
  }

  /** With a delegate that post-processes, the cell gets the altered image
      and the cache's memory holds it in place of the original. */
  method PostProcessedImageCached(decode: Bytes -> Option<Image>, urlFor: IndexPath -> Url,
                                  pp: (Image, IndexPath) -> Image, placeholder: Option<Image>,
                                  cell: CellId, path: IndexPath, data: Bytes)
    returns (log: seq<CellEvent>, cached: Option<Image>)
    requires decode(data).Some?
    ensures log == [ShowPlaceholder(cell, placeholder), DidLoadLazyImage(cell, Some(pp(decode(data).value, path)))]
    ensures cached == Some(pp(decode(data).value, path))
  {
    var table := RowRegistered(decode, Delegate(urlFor, Some(pp)), placeholder, cell, path);
    table.DownloadFinished(urlFor(path), Some(data));
    log, cached := table.cellLog, table.cache.CachedImageWithURL(urlFor(path));
  }

  /** A row configured on a fresh table whose download then brings bytes
      that decode: the cell gets the image and the bytes are in the file
      tier. */
  method RowLoaded(decode: Bytes -> Option<Image>, urlFor: IndexPath -> Url,
                   placeholder: Option<Image>, cell: CellId, path: IndexPath, data: Bytes)
    returns (table: LazyTableImages)
    requires decode(data).Some?
    ensures fresh(table) && fresh(table.cache) && table.Valid()
    ensures table.delegate == Delegate(urlFor, None) && table.placeholderImage == placeholder
    ensures table.cache.decode == decode
    ensures table.cache.files == map[urlFor(path) := data] && table.cache.loadingImages == map[]
    ensures table.cache.downloads == [urlFor(path)]
    ensures table.cellLog == [ShowPlaceholder(cell, placeholder), DidLoadLazyImage(cell, decode(data))]
  {
    table := RowRegistered(decode, Delegate(urlFor, None), placeholder, cell, path);
    table.DownloadFinished(urlFor(path), Some(data));
    NotifiedInOrder([0], decode(data), table.requests, table.delegate);
  }

  /** After the cache's memory is flushed, configuring the row again shows the
      placeholder and then the image read back from the file tier, without a
      second download. */
  method FlushedRowReloadedFromFile(decode: Bytes -> Option<Image>, urlFor: IndexPath -> Url,
                                    placeholder: Option<Image>, cell: CellId, path: IndexPath, data: Bytes)
    returns (downloads: seq<Url>, log: seq<CellEvent>)
    requires decode(data).Some?
    ensures downloads == [urlFor(path)]
    ensures log == [ShowPlaceholder(cell, placeholder), DidLoadLazyImage(cell, decode(data)),
                    ShowPlaceholder(cell, placeholder), DidLoadLazyImage(cell, decode(data))]
  {
    var table := RowLoaded(decode, urlFor, placeholder, cell, path, data);
    var c := table.cache;
    c.FlushMemory();
    assert Lookup(c.images, c.files, decode, urlFor(path)) == decode(data) && urlFor(path) !in c.images;
    assert Processed(table.delegate, path, decode(data)) == decode(data);
    table.AddLazyImageForCell(cell, path);
    downloads, log := c.downloads, table.cellLog;
  }
}
