/** The stream below a session layer, as a reader sees it. */
module Sources {
  import opened Bytes

  /** One answer of the decorated stream's read. */
  datatype ReadResult = Data(bytes: seq<byte>) | Again | Closed | Failed

  /** All bytes a sequence of answers carries. */
  function BytesOf(answers: seq<ReadResult>): seq<byte> {
    if answers == [] then []
    else (if answers[0].Data? then answers[0].bytes else []) + BytesOf(answers[1..])
  }

  /** The number of answers before the first one without data. */
  function DataAnswers(answers: seq<ReadResult>): (k: nat)
    ensures k <= |answers| && (forall i :: 0 <= i < k ==> answers[i].Data?) && (k < |answers| ==> !answers[k].Data?)
  {
    if answers == [] || !answers[0].Data? then 0 else 1 + DataAnswers(answers[1..])
  }

  /** The first answer without data; when none is left, EAGAIN. */
  function Stop(answers: seq<ReadResult>): ReadResult {
    if DataAnswers(answers) < |answers| then answers[DataAnswers(answers)] else Again
  }

  /** The answers behind it. */
  function AfterStop(answers: seq<ReadResult>): seq<ReadResult> {
    if DataAnswers(answers) < |answers| then answers[DataAnswers(answers) + 1..] else []
  }

  /** The decorated stream: what its next reads will answer, then EAGAIN. */
  class Source {
    var answers: seq<ReadResult>

    ghost predicate Valid()
      reads this
    {
      forall a :: a in answers && a.Data? ==> 0 < |a.bytes|
    }

    constructor (answers: seq<ReadResult>)
      requires forall a :: a in answers && a.Data? ==> 0 < |a.bytes|
      ensures Valid() && this.answers == answers
    {
      this.answers := answers;
    }

    method Read() returns (r: ReadResult)
      requires Valid()
      modifies this
      ensures Valid()
      ensures if old(answers) == [] then r == Again && answers == [] else old(answers) == [r] + answers
      ensures r.Data? ==> 0 < |r.bytes|
      ensures BytesOf(old(answers)) == if r.Data? then r.bytes + BytesOf(answers) else BytesOf(answers)
    {
      if |answers| == 0 {
        return Again;
      }
      r := answers[0];
      answers := answers[1..];
      assert old(answers) == [r] + answers;
    }
  }
}
