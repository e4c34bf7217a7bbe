/** What the synchronisation reads from outside the store: the remote job
    listing, the per-job file totals, the paged file listing, and the local
    file system's `stat`. All of them are given as data. */
module Remote {
  import opened Tables

  datatype Option<T> = None | Some(value: T)

  /** The placeholder name the remote listing reports for a file it has lost. */
  const MissingName: string := "<missing>"

  /** The `limit` of every file-listing request: a page holds up to this many
      records and page k starts at record k * BatchLimit. */
  const BatchLimit: nat := 100000

  /** The effective state of a job that has finished on the remote side. */
  const Completed: string := "completed"

  /** An entry of `GET /jobs`: the job id, its effective state and the id of
      its job-engine job. */
  datatype JobDescriptor = JobDescriptor(id: string, effectiveState: string, engineJob: string)

  /** An entry of a file-listing page. */
  datatype RemoteFile = RemoteFile(id: string, name: string, state: string)

  /** One page of `GET /jobs-files/{id}`: its files and its resume token,
      `None` when the listing is exhausted. */
  datatype Page = Page(files: seq<RemoteFile>, resume: Option<string>)

  /** A file-listing request as issued: the job and the `offset` query value. */
  datatype Request = Request(jobId: string, remoteOffset: nat)

  /** `os.stat`: the paths that can be stat'ed, with their `st_size`; a path
      absent from the map makes `stat` raise. */
  type StatOracle = map<string, nat>

  /** The stored size of a listed file. The placeholder name is never looked
      up and keeps the initial size 0; otherwise a successful stat gives
      `st_size` and a failed one the sentinel NA. */
  function SizeOf(name: string, stat: StatOracle): (s: Size)
    ensures name == MissingName ==> s == Bytes(0)
    ensures name != MissingName ==> (s == NA <==> name !in stat)
    ensures name != MissingName && name in stat ==> s == Bytes(stat[name])
  {
    if name == MissingName then Bytes(0)
    else if name in stat then Bytes(stat[name])
    else NA
  }

  /** A job's listing can be drained: it has pages and its last page carries
      no resume token. */
  predicate Terminates(pages: seq<Page>) {
    |pages| > 0 && pages[|pages| - 1].resume.None?
  }

  /** The index of the first page without a resume token: the last page the
      pagination loop requests. */
  function FirstEnd(pages: seq<Page>): (k: nat)
    requires Terminates(pages)
    ensures k < |pages| && pages[k].resume.None?
    ensures forall j :: 0 <= j < k ==> pages[j].resume.Some?
  {
    if pages[0].resume.None? then 0 else 1 + FirstEnd(pages[1..])
  }

  /** A listing that has ended still ends at the same page whatever follows
      it. */
  lemma {:induction false} FirstEndExtends(pages: seq<Page>, more: seq<Page>)
    requires Terminates(pages) && Terminates(pages + more)
    ensures FirstEnd(pages + more) == FirstEnd(pages)
  {
    if pages[0].resume.Some? {
      assert (pages + more)[1..] == pages[1..] + more;
      FirstEndExtends(pages[1..], more);
    }
  }

  /** The remote answer to a file-listing request with `offset=remoteOffset`:
      the page that starts at that record. */
  function FetchPage(pages: seq<Page>, remoteOffset: nat): (p: Page)
    requires remoteOffset % BatchLimit == 0 && remoteOffset / BatchLimit < |pages|
    ensures exists k :: 0 <= k < |pages| && k * BatchLimit == remoteOffset && p == pages[k]
  {
    pages[remoteOffset / BatchLimit]
  }

  /** The request for page k, at remote offset k * 100000, is answered with
      page k. */
  lemma FetchPageAt(pages: seq<Page>, k: nat)
    requires k < |pages|
    ensures (k * BatchLimit) % BatchLimit == 0 && (k * BatchLimit) / BatchLimit == k
    ensures FetchPage(pages, k * BatchLimit) == pages[k]
  {
  }
}
