/**
 * `PipeMessage`: the immutable envelope one process hands another. Its only
 * field is set by the constructor and read back by `getData()`; being a
 * datatype, it cannot be changed afterwards, and it is the only envelope the
 * driver builds, so its `PipeMessageInterface` check always passes.
 */
module PipeMessages {
  import opened Batches

  datatype PipeMessage = PipeMessage(data: Batch) {

    /** `getData()` */
    function GetData(): Batch {
      data
    }
  }

  /** `new PipeMessage($data)`: `getData()` returns exactly the array given, in order. */
  function Create(data: Batch): (m: PipeMessage)
    ensures m.GetData() == data
    ensures |m.GetData()| == |data| && forall i :: 0 <= i < |data| ==> m.GetData()[i] == data[i]
  {
    PipeMessage(data)
  }
}
