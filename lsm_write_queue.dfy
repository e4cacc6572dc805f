/** The engine's bounded write queue: an `ArrayBlockingQueue` that tasks are
    offered to and that is cleared on shutdown. Nothing takes a task out of
    it or runs one. */
module LsmWriteQueue {

  class WriteQueue<T> {
    /** The queued tasks, oldest first. */
    var tasks: seq<T>
    /** The bound fixed when the queue is built. */
    const capacity: nat

    /** The queue never holds more tasks than its capacity. */
    predicate Valid()
      reads this
    {
      |tasks| <= capacity
    }

    /** `new WriteQueue(capacity)`: an empty queue. `ArrayBlockingQueue`
        refuses a capacity below 1. */
    constructor(capacity: nat)
      requires capacity >= 1
      ensures this.capacity == capacity && tasks == []
      ensures Valid()
    {
      this.capacity := capacity;
      tasks := [];
    }

    /** `enqueue(task)` is `offer(task)` with its result ignored: on a queue
        with room the task goes to the tail behind the earlier ones; on a
        full queue it is dropped and nothing reports it. */
    method Enqueue(task: T)
      requires Valid()
      modifies this
      ensures Valid()
      ensures old(tasks) <= tasks
      ensures |old(tasks)| < capacity ==> tasks == old(tasks) + [task]
      ensures |old(tasks)| >= capacity ==> tasks == old(tasks)
    {
      if |tasks| < capacity {
        tasks := tasks + [task];
      }
    }

    /** `shutdown()` clears the queue; the capacity stays. */
    method Shutdown()
      modifies this
      ensures tasks == []
      ensures Valid()
    {
      tasks := [];
    }
  }
}
