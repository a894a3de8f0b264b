/**
  Bounded blocking FIFO queue with shutdown (blocking_queue.h).

  The mutex and the two condition variables are not modelled. A caller that would wait
  is one the model does not admit: the predicate each `wait` blocks on becomes a
  precondition of Put and Get, so every admitted call runs on to completion.
*/
module BlockingQueues {

  /** The exception `Put` throws once the queue is shut down. */
  datatype QueueError = ShutdownQueueException

  /** How a `Put` ends: normally, or by throwing. */
  datatype Outcome = Pass | Fail(error: QueueError)

  class BlockingQueue<T> {
    /** `container_`: the queued elements, front first. */
    var container: seq<T>
    /** `capacity_` */
    const capacity: nat
    /** `is_shutdown_` */
    var isShutdown: bool
    /** Every element Put has appended, and every element Get has taken out. */
    ghost var putLog: seq<T>
    ghost var getLog: seq<T>

    /**
      The queue's invariant: it never holds more than `capacity` elements, and what was
      taken out followed by what is queued is exactly what was put in (first in, first out).
    */
    ghost predicate Valid()
      reads this
    {
      |container| <= capacity && putLog == getLog + container
    }

    constructor (capacity: nat)
      ensures Valid() && this.capacity == capacity
      ensures container == [] && !isShutdown && putLog == [] && getLog == []
    {
      this.capacity := capacity;
      container := [];
      isShutdown := false;
      putLog, getLog := [], [];
    }

    /**
      `Put`: waits until there is room or the queue is shut down; after a shutdown it throws
      `ShutdownQueueException` and changes nothing, otherwise it appends `element` at the back.
    */
    method Put(element: T) returns (outcome: Outcome)
      requires Valid()
      requires |container| < capacity || isShutdown
      modifies this
      ensures Valid()
      ensures isShutdown == old(isShutdown)
      ensures old(isShutdown) ==> outcome == Fail(ShutdownQueueException)
      ensures old(isShutdown) ==> container == old(container) && putLog == old(putLog)
      ensures !old(isShutdown) ==> outcome == Pass
      ensures !old(isShutdown) ==> container == old(container) + [element] && putLog == old(putLog) + [element]
      ensures getLog == old(getLog)
    {
      if isShutdown {
        return Fail(ShutdownQueueException);
      }
      container := container + [element];
      putLog := putLog + [element];
      outcome := Pass;
    }

    /**
      `Get`: waits until the queue is non-empty or shut down. It then removes the front
      element and reports true, even after a shutdown; on an empty, shut-down queue it
      reports false and leaves `result` as it was. The by-reference argument `result` is
      modelled as an input and a returned new value.
    */
    method Get(result: T) returns (ok: bool, result': T)
      requires Valid()
      requires container != [] || isShutdown
      modifies this
      ensures Valid()
      ensures isShutdown == old(isShutdown) && putLog == old(putLog)
      ensures ok <==> old(container) != []
      ensures ok ==> result' == old(container)[0] && container == old(container)[1..]
      ensures ok ==> getLog == old(getLog) + [result']
      ensures !ok ==> result' == result && container == old(container) && getLog == old(getLog)
    {
      if container == [] {
        return false, result;
      }
      result' := container[0];
      container := container[1..];
      getLog := getLog + [result'];
      ok := true;
    }

    /**
      `Shutdown`: sets the flag and nothing else. The new state does not depend on whether
      the queue was already shut down, so a second call changes nothing.
    */
    method Shutdown()
      requires Valid()
      modifies this
      ensures Valid()
      ensures isShutdown
      ensures container == old(container) && putLog == old(putLog) && getLog == old(getLog)
    {
      isShutdown := true;
    }
  }
}
