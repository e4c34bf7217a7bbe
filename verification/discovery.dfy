/** What `addjobs` computes, stated as functions of the store and the remote
    job listing: the completion check, the work list, the job map and the
    `jobs` rows it inserts. */
module Discovery {
  import opened Tables
  import opened Remote

  /** `check_complete`: a job never seen before needs work; a seen job is
      done once the store holds at least as many of its file rows as the
      remote side reports files. */
  function CheckComplete(jobs: seq<JobRow>, files: seq<FileRow>, totals: map<string, nat>, id: string): (done: bool)
    requires HasJob(jobs, id) ==> id in totals
    ensures !HasJob(jobs, id) ==> !done
  {
    HasJob(jobs, id) && totals[id] <= CountRows(files, id)
  }

  /** The check against the rows themselves: done exactly when the job has a
      row and the number of file-row positions that name the job reaches the
      remote total. */
  lemma CheckCompleteCounts(jobs: seq<JobRow>, files: seq<FileRow>, totals: map<string, nat>, id: string)
    requires HasJob(jobs, id) ==> id in totals
    ensures CheckComplete(jobs, files, totals, id)
        <==> HasJob(jobs, id) && totals[id] <= |set k | 0 <= k < |files| && files[k].jobId == id|
  {
    CountRowsIsCardinality(files, id);
  }

  /** Completion is stable: inserting job rows or file rows never turns a
      complete job back into one that needs work. */
  lemma CheckCompleteStable(jobs: seq<JobRow>, files: seq<FileRow>, jobs': seq<JobRow>, files': seq<FileRow>,
                            totals: map<string, nat>, id: string)
    requires jobs <= jobs' && files <= files'
    requires HasJob(jobs, id) ==> id in totals
    requires CheckComplete(jobs, files, totals, id)
    ensures HasJob(jobs', id) && CheckComplete(jobs', files', totals, id)
  {
    var i :| 0 <= i < |jobs| && jobs[i].id == id;
    assert jobs'[i].id == id;
    assert files' == files + files'[|files|..];
    CountRowsGrows(files, files'[|files|..], id);
  }

  /** Every completed job of the listing has a known remote total. */
  predicate TotalsKnown(listing: seq<JobDescriptor>, totals: map<string, nat>) {
    forall d :: d in listing && d.effectiveState == Completed ==> d.id in totals
  }

  lemma TotalsKnownPrefix(listing: seq<JobDescriptor>, totals: map<string, nat>, n: nat)
    requires TotalsKnown(listing, totals) && n <= |listing|
    ensures TotalsKnown(listing[..n], totals)
  {
    forall d | d in listing[..n] && d.effectiveState == Completed ensures d.id in totals {
      assert d in listing;
    }
  }

  /** The listing names each job once. */
  ghost predicate DistinctIds(listing: seq<JobDescriptor>) {
    forall i, j :: 0 <= i < j < |listing| ==> listing[i].id != listing[j].id
  }

  /** The result of `addjobs`: the work list, the job map, and the new
      contents of `jobs`. */
  datatype Discovered = Discovered(worklist: seq<string>, jobmap: map<string, string>, jobs: seq<JobRow>)

  /** `addjobs` over the listing, in listing order. Completed jobs only; the
      map gets every completed job; a job that needs work joins the work list
      and gets a Processing row unless it has a row already. Existing rows
      are never changed. */
  function Discover(jobs: seq<JobRow>, files: seq<FileRow>, totals: map<string, nat>,
                    listing: seq<JobDescriptor>): (r: Discovered)
    requires TotalsKnown(listing, totals)
    ensures jobs <= r.jobs
    ensures JobsUnique(jobs) ==> JobsUnique(r.jobs)
  {
    if listing == [] then Discovered([], map[], jobs)
    else
      var n := |listing| - 1;
      TotalsKnownPrefix(listing, totals, n);
      var prev := Discover(jobs, files, totals, listing[..n]);
      var d := listing[n];
      if d.effectiveState != Completed then prev
      else if CheckComplete(prev.jobs, files, totals, d.id) then
        prev.(jobmap := prev.jobmap[d.id := d.engineJob])
      else
        Discovered(prev.worklist + [d.id], prev.jobmap[d.id := d.engineJob],
                   InsertJob(prev.jobs, JobRow(d.id, Processing)))
  }

  /** The job map's keys are exactly the ids of the completed jobs of the
      listing. */
  lemma {:induction false} DiscoverJobmapKeys(jobs: seq<JobRow>, files: seq<FileRow>, totals: map<string, nat>,
                                              listing: seq<JobDescriptor>)
    requires TotalsKnown(listing, totals)
    ensures Discover(jobs, files, totals, listing).jobmap.Keys
         == (set d | d in listing && d.effectiveState == Completed :: d.id)
  {
    if listing != [] {
      var n := |listing| - 1;
      TotalsKnownPrefix(listing, totals, n);
      DiscoverJobmapKeys(jobs, files, totals, listing[..n]);
      assert listing == listing[..n] + [listing[n]];
    }
  }

  /** Each id of the job map is mapped to the engine id of a completed
      descriptor for it. */
  lemma {:induction false} DiscoverJobmapValues(jobs: seq<JobRow>, files: seq<FileRow>, totals: map<string, nat>,
                                                listing: seq<JobDescriptor>, id: string)
    requires TotalsKnown(listing, totals)
    requires id in Discover(jobs, files, totals, listing).jobmap
    ensures exists i :: 0 <= i < |listing| && listing[i].effectiveState == Completed && listing[i].id == id
                        && listing[i].engineJob == Discover(jobs, files, totals, listing).jobmap[id]
  {
    var n := |listing| - 1;
    TotalsKnownPrefix(listing, totals, n);
    var prev := Discover(jobs, files, totals, listing[..n]);
    var r := Discover(jobs, files, totals, listing);
    if listing[n].effectiveState == Completed && id == listing[n].id {
      assert listing[n].engineJob == r.jobmap[id];
    } else {
      assert r.jobmap == prev.jobmap || (listing[n].effectiveState == Completed
                                        && r.jobmap == prev.jobmap[listing[n].id := listing[n].engineJob]);
      DiscoverJobmapValues(jobs, files, totals, listing[..n], id);
      var i :| 0 <= i < n && listing[..n][i].effectiveState == Completed
               && listing[..n][i].id == id && listing[..n][i].engineJob == prev.jobmap[id];
      assert listing[i] == listing[..n][i];
    }
  }

  /** The job map covers exactly the completed jobs of the listing, each
      mapped to the engine id of a completed descriptor for it. */
  lemma DiscoverJobmap(jobs: seq<JobRow>, files: seq<FileRow>, totals: map<string, nat>,
                       listing: seq<JobDescriptor>)
    requires TotalsKnown(listing, totals)
    ensures var r := Discover(jobs, files, totals, listing);
            && r.jobmap.Keys == (set d | d in listing && d.effectiveState == Completed :: d.id)
            && forall id :: id in r.jobmap ==>
                 exists i :: 0 <= i < |listing| && listing[i].effectiveState == Completed
                             && listing[i].id == id && listing[i].engineJob == r.jobmap[id]
  {
    DiscoverJobmapKeys(jobs, files, totals, listing);
    forall id | id in Discover(jobs, files, totals, listing).jobmap
      ensures exists i :: 0 <= i < |listing| && listing[i].effectiveState == Completed && listing[i].id == id
                          && listing[i].engineJob == Discover(jobs, files, totals, listing).jobmap[id]
    {
      DiscoverJobmapValues(jobs, files, totals, listing, id);
    }
  }

  /** What `addjobs` promises about its work list and the rows it adds. */
  ghost predicate WorklistFacts(jobs: seq<JobRow>, listing: seq<JobDescriptor>, r: Discovered) {
    && (forall id :: id in r.worklist ==>
          id in r.jobmap && HasJob(r.jobs, id)
          && exists i :: 0 <= i < |listing| && listing[i].effectiveState == Completed && listing[i].id == id)
    && (forall k :: |jobs| <= k < |r.jobs| ==> r.jobs[k].state == Processing && r.jobs[k].id in r.worklist)
  }

  /** Every job of the work list is a completed job of the listing, is in
      the job map and has a `jobs` row; every row added is a Processing row
      of a job of the work list. */
  lemma {:induction false} DiscoverWorklist(jobs: seq<JobRow>, files: seq<FileRow>, totals: map<string, nat>,
                                            listing: seq<JobDescriptor>)
    requires TotalsKnown(listing, totals)
    ensures WorklistFacts(jobs, listing, Discover(jobs, files, totals, listing))
  {
    if listing != [] {
      var n := |listing| - 1;
      TotalsKnownPrefix(listing, totals, n);
      DiscoverWorklist(jobs, files, totals, listing[..n]);
      var prev := Discover(jobs, files, totals, listing[..n]);
      var r := Discover(jobs, files, totals, listing);
      var d := listing[n];
      assert WorklistFacts(jobs, listing[..n], prev);
      forall id | id in r.worklist
        ensures id in r.jobmap && HasJob(r.jobs, id)
        ensures exists i :: 0 <= i < |listing| && listing[i].effectiveState == Completed && listing[i].id == id
      {
        if id in prev.worklist {
          assert id in prev.jobmap && HasJob(prev.jobs, id);
          var i :| 0 <= i < n && listing[..n][i].effectiveState == Completed && listing[..n][i].id == id;
          assert listing[i] == listing[..n][i];
          var j :| 0 <= j < |prev.jobs| && prev.jobs[j].id == id;
          assert r.jobs[j] == prev.jobs[j];
        } else {
          assert id == d.id && d.effectiveState == Completed;
        }
      }
      forall k | |jobs| <= k < |r.jobs| ensures r.jobs[k].state == Processing && r.jobs[k].id in r.worklist {
        if k < |prev.jobs| {
          assert r.jobs[k] == prev.jobs[k];
        }
      }
    }
  }

  /** Completion monotonicity: a completed job that the store already holds
      in full is never put back on the work list. */
  lemma {:induction false} DiscoverSkipsComplete(jobs: seq<JobRow>, files: seq<FileRow>, totals: map<string, nat>,
                                                 listing: seq<JobDescriptor>, id: string)
    requires TotalsKnown(listing, totals)
    requires HasJob(jobs, id) ==> id in totals
    requires CheckComplete(jobs, files, totals, id)
    ensures id !in Discover(jobs, files, totals, listing).worklist
  {
    if listing != [] {
      var n := |listing| - 1;
      TotalsKnownPrefix(listing, totals, n);
      DiscoverSkipsComplete(jobs, files, totals, listing[..n], id);
      var prev := Discover(jobs, files, totals, listing[..n]);
      if listing[n].id == id {
        CheckCompleteStable(jobs, files, prev.jobs, files, totals, id);
      }
    }
  }

  /** `id` is a completed job of the listing that needs work against the
      store `jobs`/`files`. */
  ghost predicate WantsSync(jobs: seq<JobRow>, files: seq<FileRow>, totals: map<string, nat>,
                            listing: seq<JobDescriptor>, id: string) {
    && id in totals && !CheckComplete(jobs, files, totals, id)
    && exists i :: 0 <= i < |listing| && listing[i].effectiveState == Completed && listing[i].id == id
  }

  lemma WantsSyncPrefix(jobs: seq<JobRow>, files: seq<FileRow>, totals: map<string, nat>,
                        listing: seq<JobDescriptor>, n: nat, id: string)
    requires n <= |listing| && WantsSync(jobs, files, totals, listing[..n], id)
    ensures WantsSync(jobs, files, totals, listing, id)
  {
    var i :| 0 <= i < n && listing[..n][i].effectiveState == Completed && listing[..n][i].id == id;
    assert listing[i] == listing[..n][i];
  }

  /** The ids of the completed jobs of the listing that need work against
      the store as it was before the run, in listing order. */
  function NeedsSync(jobs: seq<JobRow>, files: seq<FileRow>, totals: map<string, nat>,
                     listing: seq<JobDescriptor>): (r: seq<string>)
    requires TotalsKnown(listing, totals)
    ensures |r| <= |listing|
    ensures forall k :: 0 <= k < |r| ==> WantsSync(jobs, files, totals, listing, r[k])
  {
    if listing == [] then []
    else
      var n := |listing| - 1;
      TotalsKnownPrefix(listing, totals, n);
      var d := listing[n];
      var prev := NeedsSync(jobs, files, totals, listing[..n]);
      assert forall k :: 0 <= k < |prev| ==> WantsSync(jobs, files, totals, listing, prev[k]) by {
        forall k | 0 <= k < |prev| ensures WantsSync(jobs, files, totals, listing, prev[k]) {
          WantsSyncPrefix(jobs, files, totals, listing, n, prev[k]);
        }
      }
      assert d.effectiveState == Completed ==> d.id in totals by {
        assert d in listing;
      }
      prev
        + (if d.effectiveState == Completed && !CheckComplete(jobs, files, totals, d.id) then [d.id] else [])
  }

  /** When the listing names each job once, the work list is exactly the
      completed jobs that needed work before the run, in listing order: rows
      inserted during the run never change the check for a later job. */
  lemma {:induction false} DiscoverWorklistIsNeedsSync(jobs: seq<JobRow>, files: seq<FileRow>,
                                                       totals: map<string, nat>, listing: seq<JobDescriptor>)
    requires TotalsKnown(listing, totals) && DistinctIds(listing)
    ensures Discover(jobs, files, totals, listing).worklist == NeedsSync(jobs, files, totals, listing)
  {
    if listing != [] {
      var n := |listing| - 1;
      TotalsKnownPrefix(listing, totals, n);
      DiscoverWorklistIsNeedsSync(jobs, files, totals, listing[..n]);
      DiscoverWorklist(jobs, files, totals, listing[..n]);
      var prev := Discover(jobs, files, totals, listing[..n]);
      var d := listing[n];
      if d.effectiveState == Completed {
        assert HasJob(prev.jobs, d.id) == HasJob(jobs, d.id) by {
          if HasJob(prev.jobs, d.id) && !HasJob(jobs, d.id) {
            assert false;
          }
          if HasJob(jobs, d.id) {
            var k :| 0 <= k < |jobs| && jobs[k].id == d.id;
            assert prev.jobs[k].id == d.id;
          }
        }
      }
    }
  }
}
