/** The two tables of the local store, as sequences of rows in insertion
    order, and the SQL statements the synchronisation issues against them.
    Uniqueness constraints are kept by the statements themselves, exactly as
    INSERT OR IGNORE does. */
module Tables {

  datatype JobState = Processing | Complete

  /** A row of `jobs (id text, state text, UNIQUE(id))`. */
  datatype JobRow = JobRow(id: string, state: JobState)

  /** The `size` column: a decimal byte count, or the text 'NA'. */
  datatype Size = Bytes(n: nat) | NA

  /** A row of `files (id, name, state, size, offset, job_id, je_job,
      UNIQUE(id, offset))`. */
  datatype FileRow = FileRow(id: string, name: string, state: string, size: Size,
                             offset: nat, jobId: string, engineJob: string)

  predicate HasJob(jobs: seq<JobRow>, id: string) {
    exists k :: 0 <= k < |jobs| && jobs[k].id == id
  }

  /** The UNIQUE(id) constraint of `jobs`. */
  ghost predicate JobsUnique(jobs: seq<JobRow>) {
    forall i, j :: 0 <= i < j < |jobs| ==> jobs[i].id != jobs[j].id
  }

  /** The job with this id has a row and that row is Complete. */
  ghost predicate IsComplete(jobs: seq<JobRow>, id: string) {
    HasJob(jobs, id) && forall k :: 0 <= k < |jobs| && jobs[k].id == id ==> jobs[k].state == Complete
  }

  predicate HasFileKey(files: seq<FileRow>, id: string, offset: nat) {
    exists k :: 0 <= k < |files| && files[k].id == id && files[k].offset == offset
  }

  /** The UNIQUE(id, offset) constraint of `files`. */
  ghost predicate FilesUnique(files: seq<FileRow>) {
    forall i, j :: 0 <= i < j < |files| ==> files[i].id != files[j].id || files[i].offset != files[j].offset
  }

  /** `INSERT OR IGNORE INTO jobs`: a row whose id is already present is
      dropped, otherwise the row is appended. */
  function InsertJob(jobs: seq<JobRow>, row: JobRow): (r: seq<JobRow>)
    ensures HasJob(r, row.id)
    ensures HasJob(jobs, row.id) ==> r == jobs
    ensures !HasJob(jobs, row.id) ==> r == jobs + [row]
    ensures JobsUnique(jobs) ==> JobsUnique(r)
  {
    if HasJob(jobs, row.id) then jobs
    else
      assert (jobs + [row])[|jobs|].id == row.id;
      jobs + [row]
  }

  /** `INSERT OR IGNORE INTO files`: a row whose (id, offset) is already
      present is dropped, otherwise the row is appended. */
  function InsertFile(files: seq<FileRow>, row: FileRow): (r: seq<FileRow>)
    ensures HasFileKey(r, row.id, row.offset)
    ensures HasFileKey(files, row.id, row.offset) ==> r == files
    ensures !HasFileKey(files, row.id, row.offset) ==> r == files + [row]
    ensures FilesUnique(files) ==> FilesUnique(r)
  {
    if HasFileKey(files, row.id, row.offset) then files
    else
      assert (files + [row])[|files|] == row;
      files + [row]
  }

  /** `UPDATE jobs SET state='Complete' WHERE id=?`: row by row, a row of the
      job becomes (id, Complete) and every other row is untouched. */
  function MarkComplete(jobs: seq<JobRow>, id: string): (r: seq<JobRow>)
    ensures |r| == |jobs|
    ensures forall k :: 0 <= k < |r| ==> r[k] == if jobs[k].id == id then JobRow(id, Complete) else jobs[k]
    ensures forall k :: 0 <= k < |r| ==> r[k].id == jobs[k].id
    ensures forall k :: 0 <= k < |r| && jobs[k].id != id ==> r[k] == jobs[k]
    ensures HasJob(jobs, id) ==> IsComplete(r, id)
    ensures !HasJob(jobs, id) ==> r == jobs
    ensures JobsUnique(jobs) ==> JobsUnique(r)
  {
    if jobs == [] then []
    else
      var rest := MarkComplete(jobs[1..], id);
      var head := if jobs[0].id == id then JobRow(id, Complete) else jobs[0];
      var r := [head] + rest;
      assert forall k :: 0 <= k < |r| ==> r[k] == if jobs[k].id == id then JobRow(id, Complete) else jobs[k] by {
        forall k | 1 <= k < |r| ensures r[k] == if jobs[k].id == id then JobRow(id, Complete) else jobs[k] {
          assert r[k] == rest[k - 1] && jobs[1..][k - 1] == jobs[k];
        }
      }
      CompleteRows(jobs, id, r);
      r
  }

  /** What a row-by-row UPDATE to Complete implies for the whole table. */
  lemma CompleteRows(jobs: seq<JobRow>, id: string, r: seq<JobRow>)
    requires |r| == |jobs|
    requires forall k :: 0 <= k < |r| ==> r[k] == if jobs[k].id == id then JobRow(id, Complete) else jobs[k]
    ensures HasJob(jobs, id) ==> IsComplete(r, id)
    ensures !HasJob(jobs, id) ==> r == jobs
    ensures JobsUnique(jobs) ==> JobsUnique(r)
  {
    if !HasJob(jobs, id) {
      assert forall k :: 0 <= k < |r| ==> r[k] == jobs[k];
    }
  }

  /** `SELECT count(*) FROM files WHERE job_id=?`. */
  function CountRows(files: seq<FileRow>, jobId: string): (n: nat)
    ensures n <= |files|
  {
    if files == [] then 0
    else CountRows(files[..|files| - 1], jobId) + (if files[|files| - 1].jobId == jobId then 1 else 0)
  }

  /** The count is the number of row positions that belong to the job. */
  lemma {:induction false} CountRowsIsCardinality(files: seq<FileRow>, jobId: string)
    ensures CountRows(files, jobId) == |set k | 0 <= k < |files| && files[k].jobId == jobId|
  {
    if files != [] {
      var n := |files| - 1;
      var init := files[..n];
      CountRowsIsCardinality(init, jobId);
      var before := set k | 0 <= k < n && init[k].jobId == jobId;
      var after := set k | 0 <= k < |files| && files[k].jobId == jobId;
      if files[n].jobId == jobId {
        assert after == before + {n};
      } else {
        assert after == before;
      }
    }
  }

  /** Inserting rows never lowers a job's count: `files` only grows. */
  lemma {:induction false} CountRowsGrows(files: seq<FileRow>, more: seq<FileRow>, jobId: string)
    ensures CountRows(files, jobId) <= CountRows(files + more, jobId)
    decreases |more|
  {
    if more != [] {
      var n := |more| - 1;
      CountRowsGrows(files, more[..n], jobId);
      var all := files + more;
      assert all[..|all| - 1] == files + more[..n];
      assert CountRows(all, jobId) >= CountRows(all[..|all| - 1], jobId);
    } else {
      assert files + more == files;
    }
  }
}
