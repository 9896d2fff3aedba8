/**
 * `JobStatusManager`: the process-wide registry from job id to the job's
 * (status, message, download file name) record. It is only ever overwritten
 * and looked up; the lock around it only serialises access, so the model is
 * a sequential class holding a map.
 */
module JobStatus {
  import opened Strings

  /** The status constants a job goes through. */
  datatype Status = Queued | Processing | Completed | Error

  /** The string each status is reported as. */
  function StatusName(s: Status): (r: string)
    ensures r != NotFoundName
  {
    match s
    case Queued => "Queued"
    case Processing => "Processing"
    case Completed => "Completed"
    case Error => "Error"
  }

  /** The status reported for an id the registry does not hold. */
  const NotFoundName: string := "NotFound"

  /** Distinct statuses are reported under distinct names. */
  lemma StatusNameInjective(a: Status, b: Status)
    ensures StatusName(a) == StatusName(b) <==> a == b
  {
    if a != b {
      assert StatusName(a)[0] != StatusName(b)[0] || |StatusName(a)| != |StatusName(b)|;
    }
  }

  /** One registry entry; a null download name is `None`. */
  datatype JobRecord = JobRecord(status: Status, message: string, downloadFileName: Option<string>)

  /** One `SetJobStatus` call: the id and the record it stored. */
  type Write = (string, JobRecord)

  /** The registry a sequence of writes leaves behind, starting from the empty registry. */
  function Replay(log: seq<Write>): map<string, JobRecord> {
    if log == [] then map[]
    else
      var last := log[|log| - 1];
      Replay(log[..|log| - 1])[last.0 := last.1]
  }

  /** The record of the most recent write for `jobId`, or `None` if it was never written. */
  function LastWrite(log: seq<Write>, jobId: string): (r: Option<JobRecord>)
    ensures r.Some? ==> exists i :: 0 <= i < |log| && log[i] == (jobId, r.value)
    ensures r.None? <==> forall i :: 0 <= i < |log| ==> log[i].0 != jobId
  {
    if log == [] then None
    else if log[|log| - 1].0 == jobId then Some(log[|log| - 1].1)
    else LastWrite(log[..|log| - 1], jobId)
  }

  /** Looking an id up in the replayed registry gives the id's last write, and null for an id never written. */
  lemma {:induction false} ReplayIsLastWrite(log: seq<Write>, jobId: string)
    ensures jobId in Replay(log) <==> LastWrite(log, jobId).Some?
    ensures jobId in Replay(log) ==> Replay(log)[jobId] == LastWrite(log, jobId).value
  {
    if log != [] {
      ReplayIsLastWrite(log[..|log| - 1], jobId);
    }
  }

  /** There is no removal: the ids the registry holds are exactly the ids ever written. */
  lemma {:induction false} ReplayKeys(log: seq<Write>)
    ensures forall id :: id in Replay(log) <==> exists i :: 0 <= i < |log| && log[i].0 == id
  {
    if log != [] {
      var prefix := log[..|log| - 1];
      ReplayKeys(prefix);
      forall id | exists i :: 0 <= i < |log| && log[i].0 == id
        ensures id in Replay(log)
      {
        var i :| 0 <= i < |log| && log[i].0 == id;
        if i < |log| - 1 {
          assert prefix[i].0 == id;
        }
      }
      forall id | id in Replay(log)
        ensures exists i :: 0 <= i < |log| && log[i].0 == id
      {
        if id != log[|log| - 1].0 {
          assert id in Replay(prefix);
          var i :| 0 <= i < |prefix| && prefix[i].0 == id;
          assert log[i].0 == id;
        }
      }
    }
  }

  /** Later writes never remove an id: the registry's ids only grow. */
  lemma {:induction false} ReplayGrows(log: seq<Write>, more: seq<Write>)
    ensures Replay(log).Keys <= Replay(log + more).Keys
  {
    if more != [] {
      var init := more[..|more| - 1];
      ReplayGrows(log, init);
      var last := more[|more| - 1];
      assert (log + more)[..|log + more| - 1] == log + init;
      assert (log + more)[|log + more| - 1] == last;
      assert Replay(log + more) == Replay(log + init)[last.0 := last.1];
    } else {
      assert log + more == log;
    }
  }

  class JobStatusManager {
    /** `_jobStatuses`. */
    var jobs: map<string, JobRecord>
    /** Every write so far, oldest first. */
    ghost var log: seq<Write>

    ghost predicate Valid()
      reads this
    {
      jobs == Replay(log)
    }

    /** The registry starts empty. */
    constructor()
      ensures Valid() && log == []
    {
      jobs := map[];
      log := [];
    }

    /** `SetJobStatus`: the record for `jobId` is overwritten and every other id keeps its record. */
    method SetJobStatus(jobId: string, status: Status, message: string, downloadFileName: Option<string>)
      requires Valid()
      modifies this
      ensures Valid()
      ensures log == old(log) + [(jobId, JobRecord(status, message, downloadFileName))]
      ensures jobs == old(jobs)[jobId := JobRecord(status, message, downloadFileName)]
      ensures jobs.Keys == old(jobs).Keys + {jobId}
    {
      jobs := jobs[jobId := JobRecord(status, message, downloadFileName)];
      log := log + [(jobId, JobRecord(status, message, downloadFileName))];
      assert log[..|log| - 1] == old(log);
    }

    /** `GetJobStatus`: the last record set for `jobId`, or `None` (null) for an id never set. */
    method GetJobStatus(jobId: string) returns (r: Option<JobRecord>)
      requires Valid()
      ensures r == LastWrite(log, jobId)
      ensures r.None? <==> jobId !in jobs
      ensures r.Some? ==> r.value == jobs[jobId]
    {
      ReplayIsLastWrite(log, jobId);
      if jobId in jobs {
        r := Some(jobs[jobId]);
      } else {
        r := None;
      }
    }
  }
}
