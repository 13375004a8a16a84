/**
 * The message processor's dispatch and retry rule
 * (internal/infrastructure/processor/task_processor.go, with the message of
 * internal/infrastructure/queue/queue.go).
 *
 * A handler is a function from the message id and payload to success; the
 * message broker is the list of republished messages, and the outcome of
 * the consume and of the republish are parameters.
 */
module Processor {
  import opened Common

  /** A queue message. */
  datatype Message = Message(id: string, msgType: string, data: seq<Byte>, retries: int)

  /** A task handler: true when it processed the message, false when it returned an error. */
  type Handler = (string, seq<Byte>) -> bool

  /** The errors processTask returns. */
  datatype ProcessError =
    | ConsumeFailed
    | UnknownTaskType(msgType: string)
    | RetryFailed
    | ProcessFailed

  /** The message republished after a failed attempt, if the retry budget allows one. */
  function Requeued(m: Message, maxRetries: int): (r: Option<Message>)
    ensures r.Some? <==> m.retries < maxRetries
    ensures r.Some? ==> r.value == m.(retries := m.retries + 1) && r.value.retries <= maxRetries
  {
    if m.retries < maxRetries then Some(m.(retries := m.retries + 1)) else None
  }

  /**
   * The messages republished when every delivery of `m` fails: each
   * republished copy is delivered again and fails again until the budget
   * is spent.
   */
  function FailureChain(m: Message, maxRetries: int): seq<Message>
    decreases maxRetries - m.retries
  {
    match Requeued(m, maxRetries)
    case None => []
    case Some(next) => [next] + FailureChain(next, maxRetries)
  }

  /**
   * A message that always fails is republished exactly
   * maxRetries - retries times (never, when the budget is already spent),
   * with the counter going up by one each time and never past maxRetries.
   */
  lemma {:induction false} FailureChainIsBounded(m: Message, maxRetries: int)
    ensures |FailureChain(m, maxRetries)| == if m.retries < maxRetries then maxRetries - m.retries else 0
    ensures forall k :: 0 <= k < |FailureChain(m, maxRetries)| ==>
      FailureChain(m, maxRetries)[k] == m.(retries := m.retries + k + 1)
      && FailureChain(m, maxRetries)[k].retries <= maxRetries
    decreases maxRetries - m.retries
  {
    if m.retries < maxRetries {
      var next := m.(retries := m.retries + 1);
      FailureChainIsBounded(next, maxRetries);
      var c := FailureChain(m, maxRetries);
      assert c == [next] + FailureChain(next, maxRetries);
      forall k | 0 <= k < |c|
        ensures c[k] == m.(retries := m.retries + k + 1)
      {
        if k > 0 {
          assert c[k] == FailureChain(next, maxRetries)[k - 1];
        }
      }
    }
  }

  /** A message that starts with no retries is republished at most maxRetries times. */
  lemma FreshMessageRetriesAtMostMax(m: Message, maxRetries: int)
    requires m.retries == 0 && maxRetries >= 0
    ensures |FailureChain(m, maxRetries)| == maxRetries
  {
    FailureChainIsBounded(m, maxRetries);
  }

  class TaskProcessor {
    var handlers: map<string, Handler>
    var published: seq<Message>
    const maxRetries: int

    constructor (maxRetries: int)
      ensures this.maxRetries == maxRetries && handlers == map[] && published == []
    {
      this.maxRetries := maxRetries;
      handlers, published := map[], [];
    }

    /** RegisterHandler: stores the handler under its type, replacing any earlier one. */
    method RegisterHandler(taskType: string, handler: Handler)
      modifies this
      ensures handlers == old(handlers)[taskType := handler]
      ensures published == old(published)
    {
      handlers := handlers[taskType := handler];
    }

    /**
     * processTask: takes one delivery (None when consuming failed), runs
     * the handler registered for its type, and on failure republishes it
     * with one more retry while the budget lasts. The error is returned
     * even when the message was republished.
     */
    method ProcessTask(delivery: Option<Message>, publishOk: bool) returns (res: Outcome<ProcessError>)
      modifies this
      ensures handlers == old(handlers)
      ensures delivery.None? ==> res == Fail(ConsumeFailed) && published == old(published)
      ensures delivery.Some? && delivery.value.msgType !in handlers ==>
        res == Fail(UnknownTaskType(delivery.value.msgType)) && published == old(published)
      ensures delivery.Some? && delivery.value.msgType in handlers ==>
        var m := delivery.value;
        if handlers[m.msgType](m.id, m.data) then
          res == Pass && published == old(published)
        else
          match Requeued(m, maxRetries)
          case None => res == Fail(ProcessFailed) && published == old(published)
          case Some(next) =>
            if publishOk then res == Fail(ProcessFailed) && published == old(published) + [next]
            else res == Fail(RetryFailed) && published == old(published)
    {
      if delivery.None? {
        return Fail(ConsumeFailed);
      }
      var msg := delivery.value;
      if msg.msgType !in handlers {
        return Fail(UnknownTaskType(msg.msgType));
      }
      var handler := handlers[msg.msgType];
      var ok := handler(msg.id, msg.data);
      if !ok {
        if msg.retries < maxRetries {
          msg := msg.(retries := msg.retries + 1);
          if !publishOk {
            return Fail(RetryFailed);
          }
          published := published + [msg];
        }
        return Fail(ProcessFailed);
      }
      return Pass;
    }
  }
}
