/**
 * The "email-queue" as the producer sees it: an append-only sequence of
 * named items, each carrying its payload and the delay it was added with.
 */
module DelayQueue {
  import opened Jobs

  /** A work item `{jobId, sender}` added under `name`, with `delay` in milliseconds. */
  datatype QueueItem = QueueItem(name: string, jobId: JobId, sender: string, delay: int)

  /** The name every scheduling call adds its items under. */
  const SendJobName: string := "send"

  class Queue {
    /** Items in the order they were added. */
    var items: seq<QueueItem>

    constructor ()
      ensures items == []
    {
      items := [];
    }

    /**
     * `queue.add(name, data, {delay})`: appends the item. The delay is kept as
     * given, negative values included.
     */
    method Add(name: string, jobId: JobId, sender: string, delay: int)
      modifies this
      ensures items == old(items) + [QueueItem(name, jobId, sender, delay)]
    {
      items := items + [QueueItem(name, jobId, sender, delay)];
    }
  }
}
