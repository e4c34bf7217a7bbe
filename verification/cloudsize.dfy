/** The local store and the code that runs against it: job discovery, the
    file pagination sync, the update run that chains them, and search mode.
    The remote API and `stat` are passed in as data; commits are no-ops. */
module CloudSize {
  import opened Tables
  import opened Remote
  import opened Pagination
  import opened Discovery
  import opened Search
  import Quote

  class Store {
    /** The `jobs` table. */
    var jobs: seq<JobRow>
    /** The `files` table. */
    var files: seq<FileRow>

    /** Both uniqueness constraints hold. */
    ghost predicate Valid()
      reads this
    {
      JobsUnique(jobs) && FilesUnique(files)
    }

    /** A fresh database: both tables created empty. */
    constructor ()
      ensures Valid() && jobs == [] && files == []
    {
      jobs := [];
      files := [];
    }

    /** `addjobs`: walk the remote listing, keep the completed jobs, check
        each against the store, queue those that need work and give them a
        Processing row, and map every completed job to its engine job. */
    method AddJobs(listing: seq<JobDescriptor>, totals: map<string, nat>)
      returns (worklist: seq<string>, jobmap: map<string, string>)
      requires Valid() && TotalsKnown(listing, totals)
      modifies this`jobs
      ensures Valid()
      ensures Discovered(worklist, jobmap, jobs) == Discover(old(jobs), files, totals, listing)
    {
      worklist := [];
      jobmap := map[];
      for i := 0 to |listing|
        invariant JobsUnique(jobs) && FilesUnique(files)
        invariant TotalsKnown(listing[..i], totals)
        invariant Discovered(worklist, jobmap, jobs) == Discover(old(jobs), files, totals, listing[..i])
      {
        var job := listing[i];
        assert listing[..i + 1][..i] == listing[..i];
        assert TotalsKnown(listing[..i + 1], totals) by {
          forall d | d in listing[..i + 1] && d.effectiveState == Completed ensures d.id in totals {
            assert d in listing;
          }
        }
        if job.effectiveState == Completed {
          var sjobid := job.id;
          var done := CheckComplete(jobs, files, totals, sjobid);
          if !done {
            worklist := worklist + [sjobid];
            jobs := InsertJob(jobs, JobRow(sjobid, Processing));
          }
          jobmap := jobmap[sjobid := job.engineJob];
        }
      }
      assert listing[..|listing|] == listing;
    }

    /** The inner loop of `addfiles` over one page: compute each file's size,
        escape its name for the literal and insert-or-ignore its row. */
    method InsertPageRows(jobid: string, engine: string, fs: seq<RemoteFile>, offset: nat, stat: StatOracle)
      requires FilesUnique(files)
      modifies this`files
      ensures FilesUnique(files)
      ensures files == InsertPage(old(files), jobid, engine, fs, offset, stat)
    {
      for i := 0 to |fs|
        invariant FilesUnique(files)
        invariant files == InsertPage(old(files), jobid, engine, fs[..i], offset, stat)
      {
        var fileinfo := fs[i];
        var filesize: Size := Bytes(0);
        if fileinfo.name != MissingName {
          if fileinfo.name in stat {
            filesize := Bytes(stat[fileinfo.name]);
          } else {
            filesize := NA;
          }
        }
        var ufilename := Quote.Escape(fileinfo.name);
        files := InsertFile(files, FileRow(jobid + fileinfo.id, Quote.Unescape(ufilename), fileinfo.state,
                                           filesize, offset, jobid, engine));
        assert fs[..i + 1][..i] == fs[..i];
      }
      assert fs[..|fs|] == fs;
    }

    /** The pagination loop of `addfiles` for one job: request page k at
        remote offset k * 100000, store its rows with offset k, and stop after
        the first page without a resume token. */
    method SyncJobFiles(jobid: string, jobmap: map<string, string>, pages: seq<Page>, stat: StatOracle)
      returns (requests: seq<Request>)
      requires FilesUnique(files) && jobid in jobmap && Terminates(pages)
      modifies this`files
      ensures FilesUnique(files)
      ensures files == SyncJob(old(files), jobid, jobmap[jobid], pages, stat)
      ensures requests == JobRequests(jobid, FirstEnd(pages) + 1)
    {
      var last := FirstEnd(pages);
      var offset: nat := 0;
      var resume: Option<string> := Some("");
      requests := [];
      while resume != None
        invariant FilesUnique(files)
        invariant offset <= last + 1
        invariant resume.None? <==> offset == last + 1
        invariant files == SyncPages(old(files), jobid, jobmap[jobid], pages[..offset], stat)
        invariant requests == JobRequests(jobid, offset)
        decreases last + 1 - offset
      {
        var remoteOffset := offset * BatchLimit;
        FetchPageAt(pages, offset);
        requests := requests + [Request(jobid, remoteOffset)];
        var page := FetchPage(pages, remoteOffset);
        resume := page.resume;
        var jobenginejob := jobmap[jobid];
        InsertPageRows(jobid, jobenginejob, page.files, offset, stat);
        SyncPagesStep(old(files), jobid, jobenginejob, pages, offset, stat);
        offset := offset + 1;
      }
    }

    /** `addfiles`: drain every job of the work list, in order, then mark it
        Complete. */
    method AddFiles(jobidlist: seq<string>, jobmap: map<string, string>, feed: map<string, seq<Page>>,
                    stat: StatOracle)
      returns (requests: seq<Request>)
      requires Valid() && Drainable(jobidlist, jobmap, feed)
      modifies this
      ensures Valid()
      ensures files == SyncAll(old(files), jobidlist, jobmap, feed, stat)
      ensures jobs == MarkAll(old(jobs), jobidlist)
      ensures requests == AllRequests(jobidlist, feed)
    {
      requests := [];
      for i := 0 to |jobidlist|
        invariant Valid()
        invariant Drainable(jobidlist[..i], jobmap, feed)
        invariant files == SyncAll(old(files), jobidlist[..i], jobmap, feed, stat)
        invariant jobs == MarkAll(old(jobs), jobidlist[..i])
        invariant requests == AllRequests(jobidlist[..i], feed)
      {
        var jobid := jobidlist[i];
        var jobRequests := SyncJobFiles(jobid, jobmap, feed[jobid], stat);
        SyncAllStep(old(files), jobidlist, jobmap, feed, stat, i);
        AllRequestsStep(jobidlist, jobmap, feed, i);
        requests := requests + jobRequests;
        jobs := MarkComplete(jobs, jobid);
        MarkAllStep(old(jobs), jobidlist, i);
      }
      assert jobidlist[..|jobidlist|] == jobidlist;
    }

    /** An update run: `addjobs` then `addfiles` on what it returned. Every
        queued job ends Complete, a job the store already held in full is not
        queued, and no stored file row is changed or lost. */
    method Update(listing: seq<JobDescriptor>, totals: map<string, nat>, feed: map<string, seq<Page>>,
                  stat: StatOracle)
      returns (worklist: seq<string>, jobmap: map<string, string>, requests: seq<Request>)
      requires Valid() && TotalsKnown(listing, totals)
      requires forall d :: d in listing && d.effectiveState == Completed ==> d.id in feed && Terminates(feed[d.id])
      modifies this
      ensures Valid()
      ensures worklist == Discover(old(jobs), old(files), totals, listing).worklist
      ensures jobmap == Discover(old(jobs), old(files), totals, listing).jobmap
      ensures Drainable(worklist, jobmap, feed)
      ensures files == SyncAll(old(files), worklist, jobmap, feed, stat)
      ensures jobs == MarkAll(Discover(old(jobs), old(files), totals, listing).jobs, worklist)
      ensures requests == AllRequests(worklist, feed)
      ensures forall id :: id in worklist ==> IsComplete(jobs, id)
      ensures forall id :: id in totals && CheckComplete(old(jobs), old(files), totals, id) ==> id !in worklist
      ensures old(files) <= files
      ensures |old(jobs)| <= |jobs|
      ensures forall k :: 0 <= k < |old(jobs)| && old(jobs)[k].id !in worklist ==> jobs[k] == old(jobs)[k]
    {
      ghost var jobs0, files0 := jobs, files;
      worklist, jobmap := AddJobs(listing, totals);
      ghost var jobs1 := jobs;
      DiscoverWorklist(jobs0, files0, totals, listing);
      assert Drainable(worklist, jobmap, feed) by {
        forall k | 0 <= k < |worklist| ensures worklist[k] in jobmap && Fed(worklist[k], feed) {
          assert worklist[k] in worklist;
          var i :| 0 <= i < |listing| && listing[i].effectiveState == Completed && listing[i].id == worklist[k];
          assert listing[i] in listing;
        }
      }
      requests := AddFiles(worklist, jobmap, feed, stat);
      forall id | id in worklist ensures IsComplete(jobs, id) {
        MarkAllCompletes(jobs1, worklist, id);
      }
      forall id | id in totals && CheckComplete(jobs0, files0, totals, id) ensures id !in worklist {
        DiscoverSkipsComplete(jobs0, files0, totals, listing, id);
      }
      forall k | 0 <= k < |jobs0| && jobs0[k].id !in worklist ensures jobs[k] == jobs0[k] {
        assert jobs1[k] == jobs0[k];
        MarkAllKeepsOthers(jobs1, worklist, k);
      }
    }

    /** Search mode: sum the sizes of the rows whose name contains `sdir`
        and whose size is not NA. */
    method Search(sdir: string) returns (totalsize: nat)
      ensures totalsize == MatchingTotal(files, sdir)
    {
      totalsize := 0;
      for i := 0 to |files|
        invariant totalsize == MatchingTotal(files[..i], sdir)
      {
        var row := files[i];
        if Contains(row.name, sdir) && row.size != NA {
          totalsize := totalsize + row.size.n;
        }
        assert files[..i + 1][..i] == files[..i];
      }
      assert files[..|files|] == files;
    }
  }

  /** The id collision keeps a job on the work list for good: with job 1
      file 23 and job 12 file 3 stored on page 0 and both jobs marked
      Complete, job 12 holds no file row, so the completion check fails and
      the next run queues it again. */
  lemma CollidingJobIsRequeued(stat: StatOracle)
    ensures var a := FileRowFor("1", "10", RemoteFile("23", "/ifs/a", "archived"), 0, stat);
            var b := FileRowFor("12", "20", RemoteFile("3", "/ifs/b", "archived"), 0, stat);
            var files := InsertFile(InsertFile([], a), b);
            var jobs := [JobRow("1", Complete), JobRow("12", Complete)];
            var totals := map["1" := 1, "12" := 1];
            && !CheckComplete(jobs, files, totals, "12")
            && Discover(jobs, files, totals, [JobDescriptor("12", Completed, "20")]).worklist == ["12"]
  {
    RowIdsCanCollide(stat);
    var jobs := [JobRow("1", Complete), JobRow("12", Complete)];
    var listing := [JobDescriptor("12", Completed, "20")];
    assert HasJob(jobs, "12") by {
      assert jobs[1].id == "12";
    }
    assert listing[..0] == [];
  }
}
