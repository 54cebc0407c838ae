/**
 * `UdpServer\Response`: the acknowledgement sent back to the registry.
 * `type` and `lastRefTime` are typed properties without a default, so they
 * start uninitialised (`None` here) and `json_encode` leaves them out until
 * set; `data` starts as the empty string.
 */
module Responses {
  import opened Php

  datatype Response = Response(ackType: Option<string>, lastRefTime: Option<string>, data: string) {

    /** `setType($type)` */
    function SetType(t: string): (r: Response)
      ensures r.ackType == Some(t)
      ensures r.lastRefTime == lastRefTime && r.data == data
    {
      this.(ackType := Some(t))
    }

    /** `setLastRefTime($lastRefTime)` */
    function SetLastRefTime(time: string): (r: Response)
      ensures r.lastRefTime == Some(time)
      ensures r.ackType == ackType && r.data == data
    {
      this.(lastRefTime := Some(time))
    }

    /** `setData($data)` */
    function SetData(d: string): (r: Response)
      ensures r.data == d
      ensures r.ackType == ackType && r.lastRefTime == lastRefTime
    {
      this.(data := d)
    }
  }

  /** `new Response()` */
  function NewResponse(): (r: Response)
    ensures r.ackType.None? && r.lastRefTime.None?
    ensures r.data == ""
  {
    Response(None, None, "")
  }

  /** Both acknowledgement fields are set, so the encoded reply carries them. */
  predicate Complete(r: Response) {
    r.ackType.Some? && r.lastRefTime.Some?
  }

  /** Setters of different fields commute, and a second set of one field overrides the first. */
  lemma SettersCommuteAndOverride(r: Response, t: string, time: string, time2: string, d: string)
    ensures r.SetType(t).SetLastRefTime(time) == r.SetLastRefTime(time).SetType(t)
    ensures r.SetType(t).SetData(d) == r.SetData(d).SetType(t)
    ensures r.SetLastRefTime(time).SetData(d) == r.SetData(d).SetLastRefTime(time)
    ensures r.SetLastRefTime(time).SetLastRefTime(time2) == r.SetLastRefTime(time2)
  {
  }

  /** A fresh response that had its time and its type set is complete, and still has no data. */
  lemma TimeAndTypeComplete(time: string, t: string)
    ensures var r := NewResponse().SetLastRefTime(time).SetType(t);
      Complete(r) && r == Response(Some(t), Some(time), "")
  {
  }
}
