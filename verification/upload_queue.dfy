/**
 * The upload queue of the browser-side `UploadBase` (FileUploader.js):
 * files get fresh ids, wait in a FIFO queue, and are dispatched while fewer
 * than `maxconnections` uploads are running. Starting an upload
 * (`uploadfile`) is recorded as the id being dispatched; the request it
 * sends is not part of this model.
 */
module UploadQueue {

  /** `lastid`, `files`, `uploadqueue`, `activeuploads`, and `settings.maxconnections`. */
  datatype QueueState = QueueState(
    lastid: int,
    files: map<int, string>,
    uploadqueue: seq<int>,
    activeuploads: int,
    maxconnections: int)

  /** The state `UploadBase` starts in, with the default of two connections. */
  const Initial := QueueState(0, map[], [], 0, 2)

  /** The bookkeeping invariant: `lastid` is never negative, file ids are positive and at most `lastid`, and the queue holds known ids in increasing order. */
  predicate WellFormed(s: QueueState)
  {
    && 0 <= s.lastid
    && (forall id :: id in s.files ==> 1 <= id <= s.lastid)
    && (forall i :: 0 <= i < |s.uploadqueue| ==> s.uploadqueue[i] in s.files)
    && Increasing(s.uploadqueue)
  }

  /** Strictly increasing ids, hence each at most once. */
  predicate Increasing(q: seq<int>)
  {
    forall i, j :: 0 <= i < j < |q| ==> q[i] < q[j]
  }

  /**
   * `processuploadqueue`: while the queue is non-empty and fewer than
   * `maxconnections` uploads run, the head of the queue is taken off and
   * dispatched, one more upload running each time.
   */
  method ProcessUploadQueue(s: QueueState) returns (s': QueueState, dispatched: seq<int>)
    ensures dispatched + s'.uploadqueue == s.uploadqueue
    ensures s'.activeuploads == s.activeuploads + |dispatched|
    ensures s'.uploadqueue == [] || s'.activeuploads >= s'.maxconnections
    ensures s.activeuploads <= s.maxconnections ==> s'.activeuploads <= s'.maxconnections
    ensures s.activeuploads >= s.maxconnections ==> dispatched == []
    ensures s'.lastid == s.lastid && s'.files == s.files && s'.maxconnections == s.maxconnections
  {
    s' := s;
    dispatched := [];
    while |s'.uploadqueue| > 0 && s'.activeuploads < s'.maxconnections
      invariant dispatched + s'.uploadqueue == s.uploadqueue
      invariant s'.activeuploads == s.activeuploads + |dispatched|
      invariant s.activeuploads <= s.maxconnections ==> s'.activeuploads <= s'.maxconnections
      invariant s.activeuploads >= s.maxconnections ==> dispatched == []
      invariant s'.lastid == s.lastid && s'.files == s.files && s'.maxconnections == s.maxconnections
      decreases |s'.uploadqueue|
    {
      var fileid := s'.uploadqueue[0];
      s' := s'.(uploadqueue := s'.uploadqueue[1..], activeuploads := s'.activeuploads + 1);
      dispatched := dispatched + [fileid];
    }
  }

  /**
   * `queueforupload(file)`: the next id is `lastid + 1`; the file is
   * recorded under it and the id joins the tail of the queue before the
   * queue is processed.
   */
  method QueueForUpload(s: QueueState, file: string) returns (s': QueueState, id: int, dispatched: seq<int>)
    ensures id == s.lastid + 1 && s'.lastid == id
    ensures s'.files == s.files[id := file]
    ensures dispatched + s'.uploadqueue == s.uploadqueue + [id]
    ensures s'.activeuploads == s.activeuploads + |dispatched|
    ensures s'.uploadqueue == [] || s'.activeuploads >= s'.maxconnections
    ensures s.activeuploads <= s.maxconnections ==> s'.activeuploads <= s'.maxconnections
    ensures s'.maxconnections == s.maxconnections
    ensures WellFormed(s) ==> id !in s.files && WellFormed(s')
  {
    id := s.lastid + 1;
    var queued := s.(lastid := id, files := s.files[id := file], uploadqueue := s.uploadqueue + [id]);
    if WellFormed(s) {
      QueueAppendWellFormed(s, file);
    }
    s', dispatched := ProcessUploadQueue(queued);
    if WellFormed(s) {
      QueueSuffixWellFormed(queued, s', dispatched);
    }
  }

  /** A fresh id above every known one keeps the queue increasing when appended. */
  lemma QueueAppendWellFormed(s: QueueState, file: string)
    requires WellFormed(s)
    ensures var id := s.lastid + 1;
            WellFormed(s.(lastid := id, files := s.files[id := file], uploadqueue := s.uploadqueue + [id]))
  {
    var id := s.lastid + 1;
    var q := s.uploadqueue + [id];
    var files := s.files[id := file];
    assert forall i :: 0 <= i < |s.uploadqueue| ==> q[i] == s.uploadqueue[i] && q[i] in s.files && q[i] < id;
    assert q[|q| - 1] == id;
    assert forall k :: k in files ==> 1 <= k <= id;
    assert forall i :: 0 <= i < |q| ==> q[i] in files;
    assert Increasing(q);
  }

  /** Taking ids off the head of a well-formed queue leaves it well-formed. */
  lemma QueueSuffixWellFormed(s: QueueState, s': QueueState, dispatched: seq<int>)
    requires WellFormed(s) && dispatched + s'.uploadqueue == s.uploadqueue
    requires s'.lastid == s.lastid && s'.files == s.files
    ensures WellFormed(s')
  {
    var q := s'.uploadqueue;
    assert forall i :: 0 <= i < |q| ==> q[i] == s.uploadqueue[i + |dispatched|];
  }

  /** The first position of `id` in `q` (`indexOf`), or -1. */
  function IndexOf(q: seq<int>, id: int): (i: int)
    ensures -1 <= i < |q|
    ensures i >= 0 <==> id in q
    ensures i >= 0 ==> q[i] == id && id !in q[..i]
  {
    if |q| == 0 then -1
    else if q[0] == id then 0
    else
      var j := IndexOf(q[1..], id);
      if j < 0 then -1
      else
        assert q[..j + 1] == [q[0]] + q[1..][..j];
        j + 1
  }

  /** `q` without its first `id`, if any (`splice(indexOf(id), 1)` behind the `index > -1` test). */
  function RemoveFirst(q: seq<int>, id: int): (r: seq<int>)
    ensures id !in q ==> r == q
    ensures id in q ==> exists k :: 0 <= k < |q| && q[k] == id && id !in q[..k] && r == q[..k] + q[k + 1..]
  {
    var index := IndexOf(q, id);
    if index > -1 then
      assert q[index] == id && id !in q[..index];
      q[..index] + q[index + 1..]
    else q
  }

  /**
   * `removefromqueue(id)`: the file entry is dropped, the id leaves the
   * queue if it is waiting there, one fewer upload is running, and the queue
   * is processed again.
   */
  method RemoveFromQueue(s: QueueState, id: int) returns (s': QueueState, dispatched: seq<int>)
    ensures s'.files == s.files - {id}
    ensures dispatched + s'.uploadqueue == RemoveFirst(s.uploadqueue, id)
    ensures s'.activeuploads == s.activeuploads - 1 + |dispatched|
    ensures s'.uploadqueue == [] || s'.activeuploads >= s'.maxconnections
    ensures s.activeuploads <= s.maxconnections + 1 ==> s'.activeuploads <= s'.maxconnections
    ensures s'.lastid == s.lastid && s'.maxconnections == s.maxconnections
    ensures WellFormed(s) ==> WellFormed(s') && id !in s'.uploadqueue
  {
    var removed := s.(files := s.files - {id}, uploadqueue := RemoveFirst(s.uploadqueue, id),
                      activeuploads := s.activeuploads - 1);
    if WellFormed(s) {
      RemoveFirstWellFormed(s, id);
    }
    s', dispatched := ProcessUploadQueue(removed);
    if WellFormed(s) {
      QueueSuffixWellFormed(removed, s', dispatched);
      assert id !in dispatched + s'.uploadqueue;
    }
  }

  /** The splice `RemoveFirst` performs, at the position `indexOf` reports. */
  lemma RemoveFirstAt(q: seq<int>, id: int)
    requires id in q
    ensures RemoveFirst(q, id) == q[..IndexOf(q, id)] + q[IndexOf(q, id) + 1..]
  {
  }

  /** In an increasing queue an id occurs at most once, so removing its first occurrence removes it. */
  lemma RemoveFirstIncreasing(q: seq<int>, id: int)
    requires Increasing(q)
    ensures var r := RemoveFirst(q, id);
            && id !in r && Increasing(r)
            && forall i :: 0 <= i < |r| ==> r[i] in q
  {
    if id in q {
      RemoveFirstAt(q, id);
      SpliceIncreasing(q, IndexOf(q, id));
    }
  }

  /** Splicing one element out of an increasing queue removes it and keeps the order. */
  lemma SpliceIncreasing(q: seq<int>, k: nat)
    requires Increasing(q) && k < |q|
    ensures var r := q[..k] + q[k + 1..];
            && q[k] !in r && Increasing(r)
            && forall i :: 0 <= i < |r| ==> r[i] in q
  {
    var r := q[..k] + q[k + 1..];
    assert forall i :: 0 <= i < |r| ==> r[i] == q[if i < k then i else i + 1];
    forall i | 0 <= i < |r|
      ensures r[i] != q[k] && r[i] in q
    {
      if i < k { assert q[i] < q[k]; } else { assert q[k] < q[i + 1]; }
    }
    forall i, j | 0 <= i < j < |r|
      ensures r[i] < r[j]
    {
      var i', j' := if i < k then i else i + 1, if j < k then j else j + 1;
      assert r[i] == q[i'] && r[j] == q[j'] && i' < j';
    }
  }

  /** Removing a file and its queue entry keeps the state well-formed. */
  lemma RemoveFirstWellFormed(s: QueueState, id: int)
    requires WellFormed(s)
    ensures var r := RemoveFirst(s.uploadqueue, id);
            && id !in r
            && WellFormed(s.(files := s.files - {id}, uploadqueue := r, activeuploads := s.activeuploads - 1))
  {
    RemoveFirstIncreasing(s.uploadqueue, id);
  }

  /** With room for two uploads, queueing three files dispatches the first two and keeps the third waiting. */
  method QueueThree() returns (s: QueueState)
    ensures s.uploadqueue == [3] && s.activeuploads == 2 && s.lastid == 3
  {
    var d: seq<int>;
    var id: int;
    s, id, d := QueueForUpload(Initial, "a");
    assert d + s.uploadqueue == [1] && s.activeuploads == |d|;
    assert s.uploadqueue == [] && s.activeuploads == 1;
    s, id, d := QueueForUpload(s, "b");
    assert d + s.uploadqueue == [2] && s.activeuploads == 1 + |d|;
    assert s.uploadqueue == [] && s.activeuploads == 2;
    s, id, d := QueueForUpload(s, "c");
    assert d + s.uploadqueue == [3] && s.activeuploads == 2 + |d| <= 2;
  }
}
