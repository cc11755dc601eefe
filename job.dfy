/** The queued delivery job: it holds an endpoint and a ready-made request
    payload, posts the payload when the queue runs it, and asks the queue to
    retry it later when the request does not come back with status 200. */
module Jobs {
  import opened MailTypes

  /** The delay, in seconds, of every release the job asks for. */
  const RELEASE_DELAY: nat := 60

  /** How many attempts the queue may make before it gives up on the job. */
  const TRIES: nat := 1440

  class MailApiJob {
    var endpoint: string
    var payload: Payload

    /** The attempt bound the queue reads. */
    var tries: nat

    /** The delays of the releases this job has asked its queue for, oldest first.
        The queue owns this state; the job only adds to it. */
    ghost var released: seq<nat>

    /** Every release the job has asked for used the one fixed delay. */
    ghost predicate Valid()
      reads this
    {
      forall i :: 0 <= i < |released| ==> released[i] == RELEASE_DELAY
    }

    /** Stores the endpoint and the payload; nothing has been released yet. */
    constructor (endpoint: string, payload: Payload)
      ensures this.endpoint == endpoint && this.payload == payload
      ensures tries == TRIES
      ensures released == []
      ensures Valid()
    {
      this.endpoint := endpoint;
      this.payload := payload;
      tries := TRIES;
      released := [];
    }

    /** The queue's `release`: the job goes back on the queue after `delay` seconds. */
    method Release(delay: nat)
      modifies this`released
      ensures released == old(released) + [delay]
    {
      released := released + [delay];
    }

    /** handle: posts the stored payload to the stored endpoint. A status of 200
        ends the job with no release; any other status, or a request that
        throws, is caught and leads to exactly one release after 60 seconds;
        nothing is rethrown. */
    method Handle(post: (string, Payload) -> HttpOutcome)
      requires Valid()
      modifies this`released
      ensures Valid()
      ensures Delivered(post(endpoint, payload)) ==> released == old(released)
      ensures !Delivered(post(endpoint, payload)) ==> released == old(released) + [RELEASE_DELAY]
    {
      var response := post(endpoint, payload);
      // a thrown request and a status other than 200 reach the same handler
      var failed := response.Thrown? || response.status != 200;
      if failed {
        Release(RELEASE_DELAY);
      }
    }

    /** failed: whatever went wrong, the job is released once after 60 seconds. */
    method Failed(exception: string)
      requires Valid()
      modifies this`released
      ensures Valid()
      ensures released == old(released) + [RELEASE_DELAY]
    {
      Release(RELEASE_DELAY);
    }
  }

  /** A job whose first three attempts throw and whose fourth gets status 200
      has asked for three releases of 60 seconds, and still holds its endpoint
      and payload. */
  method RetryScenario(endpoint: string, payload: Payload)
  {
    var job := new MailApiJob(endpoint, payload);
    var down := (e: string, q: Payload) => Thrown(28, "Connection timed out");
    var up := (e: string, q: Payload) => Response(200, "{\"message_id\":\"m1\"}", "m1");
    job.Handle(down);
    job.Handle(down);
    job.Handle(down);
    job.Handle(up);
    assert job.released == [RELEASE_DELAY, RELEASE_DELAY, RELEASE_DELAY];
    assert job.endpoint == endpoint && job.payload == payload && job.tries == TRIES;
  }
}
