/** What `addfiles` does to the store, stated as functions of the store and
    the remote data: the row each listed file becomes, the rows a page adds,
    the rows a whole job adds, the requests issued, and the final job states. */
module Pagination {
  import opened Tables
  import opened Remote
  import Quote

  /** The row inserted for file `f` of page `k` of job `jobId`. The name goes
      through the quote escaping into the SQL literal and the engine reads it
      back, so the stored name is the listed name. */
  function FileRowFor(jobId: string, engine: string, f: RemoteFile, k: nat, stat: StatOracle): (r: FileRow)
    ensures r.id == jobId + f.id && r.offset == k
    ensures r.name == f.name
    ensures r.state == f.state && r.size == SizeOf(f.name, stat)
    ensures r.jobId == jobId && r.engineJob == engine
  {
    Quote.UnescapeEscape(f.name);
    FileRow(jobId + f.id, Quote.Unescape(Quote.Escape(f.name)), f.state, SizeOf(f.name, stat), k, jobId, engine)
  }

  /** Every file of `fs`, listed on page `k`, already has its key in `rows`. */
  ghost predicate PageKeysIn(rows: seq<FileRow>, jobId: string, fs: seq<RemoteFile>, k: nat) {
    forall i :: 0 <= i < |fs| ==> HasFileKey(rows, jobId + fs[i].id, k)
  }

  /** Every file of every page of `pages` already has its key in `rows`. */
  ghost predicate PagesKeysIn(rows: seq<FileRow>, jobId: string, pages: seq<Page>) {
    forall k :: 0 <= k < |pages| ==> PageKeysIn(rows, jobId, pages[k].files, k)
  }

  lemma HasFileKeyExtends(rows: seq<FileRow>, more: seq<FileRow>, id: string, k: nat)
    requires rows <= more && HasFileKey(rows, id, k)
    ensures HasFileKey(more, id, k)
  {
    var i :| 0 <= i < |rows| && rows[i].id == id && rows[i].offset == k;
    assert more[i] == rows[i];
  }

  lemma PageKeysExtend(rows: seq<FileRow>, more: seq<FileRow>, jobId: string, fs: seq<RemoteFile>, k: nat)
    requires rows <= more && PageKeysIn(rows, jobId, fs, k)
    ensures PageKeysIn(more, jobId, fs, k)
  {
    forall i | 0 <= i < |fs| ensures HasFileKey(more, jobId + fs[i].id, k) {
      HasFileKeyExtends(rows, more, jobId + fs[i].id, k);
    }
  }

  /** The inserts of one page, in listing order: rows already stored are
      never changed and the table keeps its key unique. */
  function InsertPage(rows: seq<FileRow>, jobId: string, engine: string, fs: seq<RemoteFile>,
                      k: nat, stat: StatOracle): (r: seq<FileRow>)
    ensures rows <= r
    ensures FilesUnique(rows) ==> FilesUnique(r)
  {
    if fs == [] then rows
    else
      var n := |fs| - 1;
      InsertFile(InsertPage(rows, jobId, engine, fs[..n], k, stat), FileRowFor(jobId, engine, fs[n], k, stat))
  }

  /** Afterwards every file of the page has its key stored. */
  lemma {:induction false} InsertPageStoresKeys(rows: seq<FileRow>, jobId: string, engine: string,
                                                fs: seq<RemoteFile>, k: nat, stat: StatOracle)
    ensures PageKeysIn(InsertPage(rows, jobId, engine, fs, k, stat), jobId, fs, k)
  {
    if fs != [] {
      var n := |fs| - 1;
      var prev := InsertPage(rows, jobId, engine, fs[..n], k, stat);
      var r := InsertPage(rows, jobId, engine, fs, k, stat);
      var row := FileRowFor(jobId, engine, fs[n], k, stat);
      assert r == InsertFile(prev, row);
      assert HasFileKey(r, jobId + fs[n].id, k);
      InsertPageStoresKeys(rows, jobId, engine, fs[..n], k, stat);
      PageKeysExtend(prev, r, jobId, fs[..n], k);
      forall i | 0 <= i < |fs| ensures HasFileKey(r, jobId + fs[i].id, k) {
        if i < n {
          assert fs[..n][i] == fs[i];
          assert HasFileKey(r, jobId + fs[..n][i].id, k);
        } else {
          assert i == n;
        }
      }
    }
  }

  /** Each row a page adds is the row of one of the page's files. */
  lemma {:induction false} InsertPageRowShape(rows: seq<FileRow>, jobId: string, engine: string,
                                              fs: seq<RemoteFile>, k: nat, stat: StatOracle, i: nat)
    requires |rows| <= i < |InsertPage(rows, jobId, engine, fs, k, stat)|
    ensures exists f :: f in fs && InsertPage(rows, jobId, engine, fs, k, stat)[i] == FileRowFor(jobId, engine, f, k, stat)
  {
    var n := |fs| - 1;
    var prev := InsertPage(rows, jobId, engine, fs[..n], k, stat);
    if i < |prev| {
      InsertPageRowShape(rows, jobId, engine, fs[..n], k, stat, i);
      var f :| f in fs[..n] && prev[i] == FileRowFor(jobId, engine, f, k, stat);
      assert f in fs;
    } else {
      assert InsertPage(rows, jobId, engine, fs, k, stat)[i] == FileRowFor(jobId, engine, fs[n], k, stat);
    }
  }

  /** A page whose keys are all stored already (a replayed page) changes
      nothing. */
  lemma {:induction false} InsertPageNoop(rows: seq<FileRow>, jobId: string, engine: string,
                                          fs: seq<RemoteFile>, k: nat, stat: StatOracle)
    requires PageKeysIn(rows, jobId, fs, k)
    ensures InsertPage(rows, jobId, engine, fs, k, stat) == rows
  {
    if fs != [] {
      var n := |fs| - 1;
      assert PageKeysIn(rows, jobId, fs[..n], k) by {
        forall i | 0 <= i < n ensures HasFileKey(rows, jobId + fs[..n][i].id, k) { assert fs[..n][i] == fs[i]; }
      }
      InsertPageNoop(rows, jobId, engine, fs[..n], k, stat);
      var row := FileRowFor(jobId, engine, fs[n], k, stat);
      assert HasFileKey(rows, row.id, row.offset);
      assert InsertPage(rows, jobId, engine, fs, k, stat) == InsertFile(rows, row);
    }
  }

  /** The inserts of the pages `pages`, page k stored with offset k. */
  function SyncPages(rows: seq<FileRow>, jobId: string, engine: string, pages: seq<Page>,
                     stat: StatOracle): (r: seq<FileRow>)
    ensures rows <= r
    ensures FilesUnique(rows) ==> FilesUnique(r)
  {
    if pages == [] then rows
    else
      var n := |pages| - 1;
      InsertPage(SyncPages(rows, jobId, engine, pages[..n], stat), jobId, engine, pages[n].files, n, stat)
  }

  /** Afterwards every file of every page has its key stored. */
  lemma {:induction false} SyncPagesStoresKeys(rows: seq<FileRow>, jobId: string, engine: string,
                                               pages: seq<Page>, stat: StatOracle)
    ensures PagesKeysIn(SyncPages(rows, jobId, engine, pages, stat), jobId, pages)
  {
    if pages != [] {
      var n := |pages| - 1;
      var prev := SyncPages(rows, jobId, engine, pages[..n], stat);
      var r := SyncPages(rows, jobId, engine, pages, stat);
      assert r == InsertPage(prev, jobId, engine, pages[n].files, n, stat);
      SyncPagesStoresKeys(rows, jobId, engine, pages[..n], stat);
      forall k | 0 <= k < |pages| ensures PageKeysIn(r, jobId, pages[k].files, k) {
        if k < n {
          assert pages[..n][k] == pages[k];
          PageKeysExtend(prev, r, jobId, pages[k].files, k);
        } else {
          InsertPageStoresKeys(prev, jobId, engine, pages[n].files, n, stat);
        }
      }
    }
  }

  /** Syncing one more page adds that page's rows with its index as offset. */
  lemma SyncPagesStep(rows: seq<FileRow>, jobId: string, engine: string, pages: seq<Page>, k: nat,
                      stat: StatOracle)
    requires k < |pages|
    ensures SyncPages(rows, jobId, engine, pages[..k + 1], stat)
         == InsertPage(SyncPages(rows, jobId, engine, pages[..k], stat), jobId, engine, pages[k].files, k, stat)
  {
    assert pages[..k + 1][..k] == pages[..k];
  }

  /** Pages whose keys are all stored add nothing. */
  lemma {:induction false} SyncPagesNoop(rows: seq<FileRow>, jobId: string, engine: string,
                                         pages: seq<Page>, stat: StatOracle)
    requires PagesKeysIn(rows, jobId, pages)
    ensures SyncPages(rows, jobId, engine, pages, stat) == rows
  {
    if pages != [] {
      var n := |pages| - 1;
      forall k | 0 <= k < n ensures PageKeysIn(rows, jobId, pages[..n][k].files, k) {
        assert pages[..n][k] == pages[k];
      }
      SyncPagesNoop(rows, jobId, engine, pages[..n], stat);
      InsertPageNoop(rows, jobId, engine, pages[n].files, n, stat);
    }
  }

  /** Replaying the same pages adds no row: the sync is idempotent. */
  lemma SyncPagesIdempotent(rows: seq<FileRow>, jobId: string, engine: string,
                            pages: seq<Page>, stat: StatOracle)
    ensures var once := SyncPages(rows, jobId, engine, pages, stat);
            SyncPages(once, jobId, engine, pages, stat) == once
  {
    SyncPagesStoresKeys(rows, jobId, engine, pages, stat);
    SyncPagesNoop(SyncPages(rows, jobId, engine, pages, stat), jobId, engine, pages, stat);
  }

  /** A run interrupted after the first m pages were committed, followed by a
      full re-run from offset 0, leaves the same rows as an uninterrupted run. */
  lemma {:induction false} SyncPagesResume(rows: seq<FileRow>, jobId: string, engine: string,
                                           pages: seq<Page>, m: nat, stat: StatOracle)
    requires m <= |pages|
    ensures SyncPages(SyncPages(rows, jobId, engine, pages[..m], stat), jobId, engine, pages, stat)
         == SyncPages(rows, jobId, engine, pages, stat)
  {
    if m == |pages| {
      assert pages[..m] == pages;
      SyncPagesIdempotent(rows, jobId, engine, pages, stat);
    } else {
      var n := |pages| - 1;
      assert pages[..n][..m] == pages[..m];
      SyncPagesResume(rows, jobId, engine, pages[..n], m, stat);
    }
  }

  /** The rows `addfiles` adds for one job: its pages up to and including the
      first one without a resume token. */
  function SyncJob(rows: seq<FileRow>, jobId: string, engine: string, pages: seq<Page>,
                   stat: StatOracle): (r: seq<FileRow>)
    requires Terminates(pages)
    ensures rows <= r
    ensures FilesUnique(rows) ==> FilesUnique(r)
  {
    SyncPages(rows, jobId, engine, pages[..FirstEnd(pages) + 1], stat)
  }

  /** Appending pages after a listing's end changes nothing: the loop stops
      at the first page without a resume token and never asks for more. */
  lemma SyncJobIgnoresLaterPages(rows: seq<FileRow>, jobId: string, engine: string, pages: seq<Page>,
                                 more: seq<Page>, stat: StatOracle)
    requires Terminates(pages) && Terminates(pages + more)
    ensures SyncJob(rows, jobId, engine, pages + more, stat) == SyncJob(rows, jobId, engine, pages, stat)
  {
    FirstEndExtends(pages, more);
    var e := FirstEnd(pages);
    PrefixOfAppend(pages, more, e + 1);
    assert SyncJob(rows, jobId, engine, pages + more, stat)
        == SyncPages(rows, jobId, engine, (pages + more)[..e + 1], stat);
  }

  lemma PrefixOfAppend(pages: seq<Page>, more: seq<Page>, m: nat)
    requires m <= |pages|
    ensures (pages + more)[..m] == pages[..m]
  {
  }

  /** Replaying a whole job's sync adds no row. */
  lemma SyncJobIdempotent(rows: seq<FileRow>, jobId: string, engine: string, pages: seq<Page>, stat: StatOracle)
    requires Terminates(pages)
    ensures var once := SyncJob(rows, jobId, engine, pages, stat);
            SyncJob(once, jobId, engine, pages, stat) == once
  {
    SyncPagesIdempotent(rows, jobId, engine, pages[..FirstEnd(pages) + 1], stat);
  }

  /** A job whose sync stopped after its first m pages were committed (a
      network failure leaves it Processing) and that is synced again from
      offset 0 on the next run ends with the same rows as an uninterrupted
      sync. */
  lemma SyncJobResume(rows: seq<FileRow>, jobId: string, engine: string, pages: seq<Page>, m: nat,
                      stat: StatOracle)
    requires Terminates(pages) && m <= FirstEnd(pages) + 1
    ensures SyncJob(SyncPages(rows, jobId, engine, pages[..m], stat), jobId, engine, pages, stat)
         == SyncJob(rows, jobId, engine, pages, stat)
  {
    var drained := pages[..FirstEnd(pages) + 1];
    assert drained[..m] == pages[..m];
    SyncPagesResume(rows, jobId, engine, drained, m, stat);
  }

  /** The row id is the job id followed by the file id, so it does not keep
      jobs apart: file 23 of job 1 and file 3 of job 12 get the same id, and
      on the same page index the second row is ignored, leaving job 12
      without it. */
  lemma RowIdsCanCollide(stat: StatOracle)
    ensures var a := FileRowFor("1", "10", RemoteFile("23", "/ifs/a", "archived"), 0, stat);
            var b := FileRowFor("12", "20", RemoteFile("3", "/ifs/b", "archived"), 0, stat);
            && a.jobId != b.jobId
            && InsertFile(InsertFile([], a), b) == [a]
            && CountRows(InsertFile(InsertFile([], a), b), "12") == 0
  {
    var a := FileRowFor("1", "10", RemoteFile("23", "/ifs/a", "archived"), 0, stat);
    var b := FileRowFor("12", "20", RemoteFile("3", "/ifs/b", "archived"), 0, stat);
    assert a.id == "123" == b.id;
    assert [a][..0] == [];
  }

  /** The requests for the first n pages of a job: page k at offset k * 100000. */
  function JobRequests(jobId: string, n: nat): (r: seq<Request>)
    ensures |r| == n
    ensures forall k :: 0 <= k < n ==> r[k] == Request(jobId, k * BatchLimit)
  {
    if n == 0 then [] else JobRequests(jobId, n - 1) + [Request(jobId, (n - 1) * BatchLimit)]
  }

  /** The input `addfiles` needs: every listed job has an engine id and a
      listing that ends. */
  predicate Drainable(jobIds: seq<string>, jobmap: map<string, string>, feed: map<string, seq<Page>>) {
    forall k :: 0 <= k < |jobIds| ==> jobIds[k] in jobmap && Fed(jobIds[k], feed)
  }

  /** The feed holds a listing for the job, and that listing ends. */
  predicate Fed(jobId: string, feed: map<string, seq<Page>>) {
    jobId in feed && Terminates(feed[jobId])
  }

  lemma DrainablePrefix(jobIds: seq<string>, jobmap: map<string, string>, feed: map<string, seq<Page>>, i: nat)
    requires Drainable(jobIds, jobmap, feed) && i <= |jobIds|
    ensures Drainable(jobIds[..i], jobmap, feed)
  {
    forall k | 0 <= k < i ensures jobIds[..i][k] in jobmap && Fed(jobIds[..i][k], feed) {
      assert jobIds[..i][k] == jobIds[k];
    }
  }

  /** The rows `addfiles` adds for all jobs of the work list, in order. */
  function SyncAll(rows: seq<FileRow>, jobIds: seq<string>, jobmap: map<string, string>,
                   feed: map<string, seq<Page>>, stat: StatOracle): (r: seq<FileRow>)
    requires Drainable(jobIds, jobmap, feed)
    ensures rows <= r
    ensures FilesUnique(rows) ==> FilesUnique(r)
  {
    if jobIds == [] then rows
    else
      var n := |jobIds| - 1;
      DrainablePrefix(jobIds, jobmap, feed, n);
      SyncJob(SyncAll(rows, jobIds[..n], jobmap, feed, stat), jobIds[n], jobmap[jobIds[n]], feed[jobIds[n]], stat)
  }

  /** The requests `addfiles` issues for all jobs of the work list, in order. */
  function AllRequests(jobIds: seq<string>, feed: map<string, seq<Page>>): (r: seq<Request>)
    requires forall k :: 0 <= k < |jobIds| ==> Fed(jobIds[k], feed)
    ensures r == [] <==> jobIds == []
  {
    if jobIds == [] then []
    else
      var n := |jobIds| - 1;
      assert forall k :: 0 <= k < n ==> jobIds[..n][k] == jobIds[k];
      assert Fed(jobIds[n], feed);
      AllRequests(jobIds[..n], feed) + JobRequests(jobIds[n], FirstEnd(feed[jobIds[n]]) + 1)
  }

  /** Every job of the work list is asked for at least one page. */
  lemma {:induction false} AllRequestsPerJob(jobIds: seq<string>, feed: map<string, seq<Page>>)
    requires forall k :: 0 <= k < |jobIds| ==> Fed(jobIds[k], feed)
    ensures |AllRequests(jobIds, feed)| >= |jobIds|
  {
    if jobIds != [] {
      var n := |jobIds| - 1;
      assert forall k :: 0 <= k < n ==> jobIds[..n][k] == jobIds[k];
      AllRequestsPerJob(jobIds[..n], feed);
    }
  }

  /** One more job of the work list: its rows come after those of the jobs
      before it. */
  lemma SyncAllStep(rows: seq<FileRow>, jobIds: seq<string>, jobmap: map<string, string>,
                    feed: map<string, seq<Page>>, stat: StatOracle, i: nat)
    requires i < |jobIds| && Drainable(jobIds, jobmap, feed)
    ensures Drainable(jobIds[..i], jobmap, feed) && Drainable(jobIds[..i + 1], jobmap, feed)
    ensures SyncAll(rows, jobIds[..i + 1], jobmap, feed, stat)
         == SyncJob(SyncAll(rows, jobIds[..i], jobmap, feed, stat), jobIds[i], jobmap[jobIds[i]], feed[jobIds[i]], stat)
  {
    DrainablePrefix(jobIds, jobmap, feed, i);
    DrainablePrefix(jobIds, jobmap, feed, i + 1);
    assert jobIds[..i + 1][..i] == jobIds[..i];
  }

  /** One more job of the work list: its requests come after those of the
      jobs before it. */
  lemma AllRequestsStep(jobIds: seq<string>, jobmap: map<string, string>, feed: map<string, seq<Page>>, i: nat)
    requires i < |jobIds| && Drainable(jobIds, jobmap, feed)
    ensures Drainable(jobIds[..i], jobmap, feed) && Drainable(jobIds[..i + 1], jobmap, feed)
    ensures AllRequests(jobIds[..i + 1], feed)
         == AllRequests(jobIds[..i], feed) + JobRequests(jobIds[i], FirstEnd(feed[jobIds[i]]) + 1)
  {
    DrainablePrefix(jobIds, jobmap, feed, i);
    DrainablePrefix(jobIds, jobmap, feed, i + 1);
    assert jobIds[..i + 1][..i] == jobIds[..i];
  }

  /** The job states after `addfiles`: each job of the work list marked
      Complete in turn. Row order and ids are kept. */
  function MarkAll(jobs: seq<JobRow>, jobIds: seq<string>): (r: seq<JobRow>)
    ensures |r| == |jobs|
    ensures forall k :: 0 <= k < |r| ==> r[k].id == jobs[k].id
    ensures JobsUnique(jobs) ==> JobsUnique(r)
  {
    if jobIds == [] then jobs
    else
      var n := |jobIds| - 1;
      MarkComplete(MarkAll(jobs, jobIds[..n]), jobIds[n])
  }

  /** One more job of the work list is marked after the jobs before it. */
  lemma MarkAllStep(jobs: seq<JobRow>, jobIds: seq<string>, i: nat)
    requires i < |jobIds|
    ensures MarkAll(jobs, jobIds[..i + 1]) == MarkComplete(MarkAll(jobs, jobIds[..i]), jobIds[i])
  {
    assert jobIds[..i + 1][..i] == jobIds[..i];
  }

  /** Row by row, the jobs table after `addfiles`: a row whose job is in the
      work list is Complete, every other row is as it was. */
  lemma {:induction false} MarkAllRow(jobs: seq<JobRow>, jobIds: seq<string>, k: nat)
    requires k < |jobs|
    ensures MarkAll(jobs, jobIds)[k] == if jobs[k].id in jobIds then JobRow(jobs[k].id, Complete) else jobs[k]
  {
    if jobIds != [] {
      var n := |jobIds| - 1;
      MarkAllRow(jobs, jobIds[..n], k);
      InLast(jobIds, jobs[k].id);
    }
  }

  lemma InLast(s: seq<string>, x: string)
    requires s != []
    ensures x in s <==> x in s[..|s| - 1] || x == s[|s| - 1]
  {
    assert s == s[..|s| - 1] + [s[|s| - 1]];
  }

  /** A job of the work list that has a row ends Complete. */
  lemma MarkAllCompletes(jobs: seq<JobRow>, jobIds: seq<string>, id: string)
    requires id in jobIds && HasJob(jobs, id)
    ensures IsComplete(MarkAll(jobs, jobIds), id)
  {
    var r := MarkAll(jobs, jobIds);
    var i :| 0 <= i < |jobs| && jobs[i].id == id;
    assert r[i].id == id;
    forall j | 0 <= j < |r| && r[j].id == id ensures r[j].state == Complete {
      MarkAllRow(jobs, jobIds, j);
    }
  }

  /** A job not in the work list keeps its row as it was. */
  lemma MarkAllKeepsOthers(jobs: seq<JobRow>, jobIds: seq<string>, k: nat)
    requires k < |jobs| && jobs[k].id !in jobIds
    ensures MarkAll(jobs, jobIds)[k] == jobs[k]
  {
    MarkAllRow(jobs, jobIds, k);
  }

  /** A feed of three pages whose third has no resume token is drained with
      exactly three requests, at offsets 0, 100000 and 200000. */
  lemma ThreePageFeed(p0: seq<RemoteFile>, p1: seq<RemoteFile>, p2: seq<RemoteFile>)
    ensures var pages := [Page(p0, Some("r1")), Page(p1, Some("r2")), Page(p2, None)];
            && Terminates(pages) && FirstEnd(pages) == 2
            && JobRequests("7", FirstEnd(pages) + 1) == [Request("7", 0), Request("7", 100000), Request("7", 200000)]
  {
    var pages := [Page(p0, Some("r1")), Page(p1, Some("r2")), Page(p2, None)];
    assert pages[1..][1..] == [Page(p2, None)];
  }
}
