# MHLazyTableImages in Dafny

A model of the two Objective-C classes at the heart of MHLazyTableImages.

- **MHImageCache** is a two-level image cache.
  - Its tiers are images in memory and raw bytes on the local file system.
  - The file tier outlives a launch: a new cache is created with the files already on disk.
  - It downloads each URL at most once at a time.
  - Blocks asking for a URL whose download is in flight wait for that download.
  - When the answer arrives, every waiting block is invoked with the image, or with nil on an error.
- **MHLazyTableImages** binds table rows to images loaded through the cache.
  - The delegate gives each row's URL.
  - A cell gets the image in memory at once; otherwise it shows the placeholder, and then gets the image from the file at once or waits for the download.
  - When loading finishes, the cell is told `didLoadLazyImage:` with the image or nil.
  - A delegate that post-processes images has the processed image stored in the cache in place of the original.

Only the two headers describe these classes. The model therefore captures what their declarations and doc comments promise, and nothing of the hidden implementation beyond that.

## Files

- `wrappers.dfy`: module `Wrappers`, the `Option` type used for "image or nil".
- `image_cache.dfy`: module `MHImageCache`, containing:
  - the `ImageCache` class and the invariant it keeps;
  - the pure functions that specify it;
  - client runs, each starting from a fresh cache.
- `lazy_table_images.dfy`: module `MHLazyTableImages`, containing:
  - the `LazyTableImages` class;
  - the functions specifying what the table's blocks do;
  - lemmas about those functions;
  - client runs, each on a fresh cache and table.

## How the model is built

The cache is a single-threaded state machine. The header requires that it be used from the main thread only.

**Fields of `ImageCache`:**

- `images` (URL to image) and `loadingImages` (URL to the waiting blocks and the cacheInFile flag) are the two dictionaries.
- `files` (URL to bytes) is the file tier.

**The outside world:**

- A block is identified by a ticket. The cache allocates tickets in call order.
- Every block invocation is appended to `delivered`. The promises about callbacks are stated over that log.
- Starting a download appends the URL to `downloads`.
- The downloader's answer comes back as a call to `DownloadCompleted(url, data)`:
  - `data` is the bytes, or None for a network error;
  - the injected `decode` function turns bytes into an image, or fails.

**The invariant `Valid()`** rests on ghost bookkeeping: a status per ticket, and the list of answered downloads. It states that:

- every registered block is either waiting, in exactly one place of one registry entry, or invoked, at exactly one place of the log;
- registry entries are never empty;
- for every URL, the downloads started outnumber the answers received by one while the URL is in the registry, and by none otherwise.

Each clause is stated per URL, place or ticket by its own predicate. A pure lemma proves that each state change keeps it.

**The table** keeps the records of its own blocks in `requests`: ticket to cell, row and URL. The cache's methods return the invocations they made, and `RunBlocks` runs the table's blocks among them. Each such block, in order:

- post-processes the image when the delegate does that;
- inserts the processed image into the cache;
- notifies the cell.

Cell notifications are appended to `cellLog`.

The table's invariant adds to the cache's that every block of the table has been registered with the cache, and that each of its blocks waiting in the registry waits under the URL it was registered for. `DownloadFinished` uses this to prove that the processed image lands under the downloaded URL in every state, not only in a client run.

**Choices where the headers leave the behaviour open:**

- `cachedImageWithURL:` reads the memory tier only.
- `imageFromURL:` checks, in this order:
  1. memory;
  2. the file tier, through the decoder (a file hit is loaded into memory, and bytes that do not decode count as a miss);
  3. the registry;
  4. only then does it start a download.
- A download in flight keeps the cacheInFile flag of the call that started it. The flags of later callers for the same URL are not consulted.
- On a row whose image is in memory, the cell is given that image and no placeholder is shown.

## Model

| member | source | states |
|---|---|---|
| MHImageCache.Fanout | Sources/MHImageCache.h:87-88 | each waiting block, in order, is invoked exactly once with the same result |
| MHImageCache.TierOrder | Sources/MHImageCache.h:45-47 | for all contents of both tiers: an image in memory wins over any file bytes; without one the decoded file answers, so after a flush the answer falls through to the file; with neither there is no answer |
| MHImageCache.ServeAtOnce | Sources/MHImageCache.h:71-75 | serving a new block at once from a tier keeps the invariant |
| MHImageCache.AttachWaiter | Sources/MHImageCache.h:81-82 | attaching a new block to the download in flight keeps the invariant |
| MHImageCache.StartDownload | Sources/MHImageCache.h:77-79 | registering a new block and starting the one download for a URL with nothing in flight keeps the invariant |
| MHImageCache.FinishDownload | Sources/MHImageCache.h:87-88 | removing the entry and invoking each of its waiters once, in order, keeps the invariant |
| MHImageCache.ImageCache.constructor | Sources/MHImageCache.h:46-49 | the shared instance starts a launch with nothing in memory, no block and no download, and with whatever files earlier launches left on disk |
| MHImageCache.ImageCache.CacheImage | Sources/MHImageCache.h:98-105 | afterwards the URL maps to the new image, replacing any earlier one; nothing else changes |
| MHImageCache.ImageCache.FlushMemory | Sources/MHImageCache.h:107-113 | memory is emptied, so every lookup returns nil; files, registry and logs are unchanged |
| MHImageCache.ImageCache.ImageFromURLCacheInFile | Sources/MHImageCache.h:77-90 | the new block is behaviour (a), (b) or (c) below |
| MHImageCache.ImageCache.ImageFromURL | Sources/MHImageCache.h:71-75 | the same as the three-argument form, with cacheInFile set |
| MHImageCache.ImageCache.DownloadCompleted | Sources/MHImageCache.h:77-90 | the entry is removed and every waiter is invoked once, in order; see (d) and (e) below |
| MHImageCache.ImageCache.InvokeBlocks | Sources/MHImageCache.h:87-88 | the invocations made are exactly the fan-out of the result to the waiters, appended to the log |
| MHImageCache.ImageCache.InvokedAtMostOnce | Sources/MHImageCache.h:87-88 | no block appears twice in the delivery log |
| MHImageCache.ImageCache.WaitsInOnePlace | Sources/MHImageCache.h:81-82 | a block waits in one place of one registry entry, and a waiting block has not been invoked |
| MHImageCache.ImageCache.WaitersIssued | Sources/MHImageCache.h:81-82 | every block waiting in the registry was registered before: its ticket is below the next one |
| MHImageCache.ImageCache.NoBlockLost | Sources/MHImageCache.h:87-88 | every block registered so far is waiting in the registry or has been invoked |
| MHImageCache.ImageCache.AtMostOneDownloadInFlight | Sources/MHImageCache.h:81-82 | a URL's downloads exceed its answers by one while it is in the registry, and by none otherwise; the answers are the `completed` log, which starts empty, grows by the URL at each DownloadCompleted and is stated unchanged by every other operation |
| MHImageCache.CoalescedRequests | Sources/MHImageCache.h:81-82 | n calls for one URL before its answer start one download; the n distinct blocks are each invoked once, in call order, with the answer |
| MHImageCache.RetryAfterFailure | Sources/MHImageCache.h:38-43 | two waiters of a failed download both get nil; a later call starts a second download |
| MHImageCache.LeftoverFileServed | Sources/MHImageCache.h:46-49 | a file left by an earlier launch answers the first call at once when its bytes decode; bytes that do not decode count as a miss and the image is downloaded |
| MHImageCache.FlushKeepsFiles | Sources/MHImageCache.h:107-113 | after a download and a flush, a call is answered from the file tier without a second download |
| MHImageCache.MemoryOnlyDownload | Sources/MHImageCache.h:85-86 | with cacheInFile off nothing reaches the file tier, so a call after a flush downloads again |
| MHImageCache.InsertedImageWins | Sources/MHImageCache.h:98-105 | an image inserted over a downloaded one is what later callers and cachedImageWithURL get |
| MHLazyTableImages.FailureNotifiesNil | Sources/MHLazyTableImages.h:31-36 | after a failed download every cell the table notifies receives nil |
| MHLazyTableImages.NotifiedInOrder | Sources/MHLazyTableImages.h:31-36 | when all waiters are the table's, each cell is notified once, in registration order, with its post-processed result |
| MHLazyTableImages.EveryRequestNotified | Sources/MHLazyTableImages.h:31-36 | every block of the table among the invocations notifies its own cell with its (post-processed) image or nil |
| MHLazyTableImages.OnlyOwnBlocksNotify | Sources/MHLazyTableImages.h:109-112 | for any mix of the table's and other clients' invocations: there are exactly as many notifications as invocations of the table's blocks, and each notification is the one such an invocation gives (its cell, its post-processed image or nil); other clients' invocations notify no cell |
| MHLazyTableImages.PostProcessedKeepsOthers | Sources/MHLazyTableImages.h:57-62 | when the table's blocks among the invocations are all for one URL, no other URL's entry in the cache changes |
| MHLazyTableImages.PostProcessedReplacesOriginal | Sources/MHLazyTableImages.h:57-62 | when the table's blocks among the invocations are all for one URL, the processed image of the last of them that carries an image is stored under that URL in place of the original |
| MHLazyTableImages.Finished | Sources/MHLazyTableImages.h:57-62 | for any registry whose waiting table blocks are filed under their own URLs: after a download's waiters run, no other URL's image changes, and with post-processing and a decoded result the processed image of the table's last waiter is stored under the URL |
| MHLazyTableImages.Registered | Sources/MHLazyTableImages.h:109-112 | registering a new block for a URL keeps every waiting block of the table filed under the URL it was registered for |
| MHLazyTableImages.Unregistered | Sources/MHImageCache.h:87-88 | removing a URL's registry entry keeps every other waiting block of the table filed under its own URL |
| MHLazyTableImages.NoPostProcessNoChange | Sources/MHLazyTableImages.h:55-62 | without post-processing the table's blocks insert nothing into the cache |
| MHLazyTableImages.LazyTableImages.constructor | Sources/MHLazyTableImages.h:100-107 | the table starts with its delegate and placeholder, and with no rows, blocks or notifications |
| MHLazyTableImages.LazyTableImages.RunBlocks | Sources/MHLazyTableImages.h:31-36 | the table's blocks, in order, notify their cells; post-processed images are inserted into the cache; nothing else in the cache changes |
| MHLazyTableImages.LazyTableImages.AddLazyImageForCell | Sources/MHLazyTableImages.h:79-83 | records the row's URL; then behaviour (f) or (g) below |
| MHLazyTableImages.LazyTableImages.RegisterBlock | Sources/MHLazyTableImages.h:82-83 | for a row whose image is not in memory: the block is recorded under the next ticket and passed to imageFromURL; the cases of (g) below, without the placeholder |
| MHLazyTableImages.LazyTableImages.DownloadFinished | Sources/MHLazyTableImages.h:57-62 | the cache stores the result and invokes its waiters; each of the table's blocks among them notifies its cell; with post-processing, the processed image of the last of the table's waiters replaces the original under the URL, and no other URL's image changes |
| MHLazyTableImages.CachedRowShownAtOnce | Sources/MHLazyTableImages.h:81-83 | a row whose image is in memory is shown at once and nothing is downloaded |
| MHLazyTableImages.FailedRowRetried | Sources/MHLazyTableImages.h:85-86 | a failed row gets nil, and configuring it again starts a second download |
| MHLazyTableImages.RowsShareDownload | Sources/MHImageCache.h:81-82 | two rows with one URL share one download, and both cells get the image when it arrives |
| MHLazyTableImages.PostProcessedImageCached | Sources/MHLazyTableImages.h:57-62 | the cell gets the processed image, and cachedImageWithURL then returns it |
| MHLazyTableImages.FlushedRowReloadedFromFile | Sources/MHLazyTableImages.h:88-90 | after a flush, the row is reloaded from the file tier without a second download |

The longer contracts:

- **ImageFromURLCacheInFile.** The new block gets the next ticket, and the file tier is unchanged. The block is:
  - (a) invoked at once with the image the tiers hold, and that image is placed in memory;
  - (b) appended to the waiters of the download in flight, with no new download;
  - (c) the first waiter of a new registry entry, carrying the flag, and exactly one download is started.
- **DownloadCompleted.** Besides the removal and the invocations:
  - (d) a decoded image is placed in memory;
  - (e) its bytes go to the file tier only when the download's flag is set; no file entry is removed.
- **AddLazyImageForCell.**
  - (f) An image in memory goes to the cell at once, and nothing else changes.
  - (g) Otherwise the cell shows the placeholder and a block is registered with imageFromURL. It is answered from the file tier (with the processed image also stored), or waits for the download in flight, or starts one.

## Left out

- The `UIImageView (MHImageCache)` category (`mh_loadImageFromURL:`, Sources/MHImageCache.h:28-34) is a UIKit wrapper around imageFromURL.
- The `UITableViewCell (MHLazyTableImages)` category (Sources/MHLazyTableImages.h:43-44) is not modelled. A cell is an identity whose notifications are recorded; showing the placeholder is one such notification.
- The `tableView` property (Sources/MHLazyTableImages.h:103-104) is a view object. `delegate` and `placeholderImage` are plain fields, set by assigning them.
- The scroll hooks `scrollViewDidEndDragging:willDecelerate:` and `scrollViewDidEndDecelerating:` (Sources/MHLazyTableImages.h:117, 122) have no documented behaviour.
  - Downloads therefore start when a cell is configured, as the class comment describes for `addLazyImageForCell:withIndexPath:`.
  - Any deferral of downloads while scrolling is not modelled.
- `+sharedInstance` (Sources/MHImageCache.h:69) is modelled as one explicitly constructed cache passed to the table.
- DownloadFinished: one table per cache is modelled.
  - With several tables on the shared cache, a completion runs only the blocks of the table it is called on.
  - Another table's blocks waiting on the same URL are logged as invoked in the cache's `delivered`, but that table's cells are not notified.
  - Each table's invariant speaks of its own blocks only, so no multi-table invariant is stated.
- Platform work is not modelled:
  - networking, file I/O, the cache directory and file naming (Sources/MHImageCache.h:62-63) are left out;
  - the downloader is the `downloads` log together with the `DownloadCompleted` event;
  - image decoding is the injected `decode` function, and the file tier is a map.
  - Write failures on the file system are not modelled.
- Main-thread affinity and asynchrony are assumed, not modelled:
  - a block that is served at once is invoked within the call, and the run-loop scheduling of callbacks is not modelled;
  - downloads for different URLs may answer in any order, since the caller chooses the order of `DownloadCompleted` calls.
- Cancellation is not modelled, because the header says there is none (Sources/MHLazyTableImages.h:91-92).
- No guard is modelled against delivering an image to a row that has since been rebound.
  - A block always notifies the cell it was registered for, and wrong-row delivery is a case the header disclaims (Sources/MHLazyTableImages.h:93-94).
  - Such a guard would rest on a comparison with the row's current URL, which the header does not promise. `rowURLs` records each row's latest URL but does not gate delivery.
- `Demo/Parser.h` is a demo feed parser, outside the image core.
