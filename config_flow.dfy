/** The processor between the dialog's fields and the model
    (`ConfigProcessor`), with delivery to subscribers modelled as a
    synchronous, ordered log of submitted items. */
module ConfigFlow {
  import opened ConfigModel

  /** `Long.MAX_VALUE`, the unbounded demand of the reactive-streams API. */
  const LongMax: int := 0x7fff_ffff_ffff_ffff

  /** The subscription a publisher hands to a subscriber; the model records
      the demand the subscriber signals, one request at a time. */
  class Subscription {
    var requests: seq<int>

    constructor()
      ensures requests == []
    {
      requests := [];
    }

    method Request(n: int)
      modifies this
      ensures requests == old(requests) + [n]
    {
      requests := requests + [n];
    }
  }

  /** The total demand in a list of requests. */
  function Demand(requests: seq<int>): int
    decreases |requests|
  {
    if requests == [] then 0 else Demand(requests[..|requests| - 1]) + requests[|requests| - 1]
  }

  lemma DemandSnoc(requests: seq<int>, n: int)
    ensures Demand(requests + [n]) == Demand(requests) + n
  {
    assert (requests + [n])[..|requests + [n]| - 1] == requests;
  }

  /** The subscribers other than `s`, in their order. */
  function Unsubscribed(xs: seq<object>, s: object): (r: seq<object>)
    ensures s !in r && (forall i :: 0 <= i < |r| ==> r[i] in xs)
    ensures forall i :: 0 <= i < |xs| && xs[i] != s ==> xs[i] in r
    ensures |r| <= |xs| && (s in xs ==> |r| < |xs|)
    decreases |xs|
  {
    if xs == [] then []
    else (if xs[0] == s then [] else [xs[0]]) + Unsubscribed(xs[1..], s)
  }

  class ConfigProcessor {
    const model: ConfigValueModel
    /** Every item handed to `submit`, in order. */
    var log: seq<ConfigValue>
    /** Set by `close`; a closed publisher refuses every later item and
        has no subscribers left. */
    var closed: bool
    /** The subscribers registered with `subscribe`, in order. */
    var subscribers: seq<object>

    constructor(model: ConfigValueModel)
      ensures this.model == model
      ensures log == [] && !closed && subscribers == []
    {
      this.model := model;
      log := [];
      closed := false;
      subscribers := [];
    }

    /** `subscribe`: a new subscriber is registered at the end while the
        publisher is open. A closed publisher completes the subscriber at
        once and registers nothing. Subscribing again ends the existing
        subscription with an `IllegalStateException`, so the subscriber is
        no longer registered. */
    method Subscribe(s: object)
      modifies this
      ensures subscribers ==
        if old(closed) then old(subscribers)
        else if s in old(subscribers) then Unsubscribed(old(subscribers), s)
        else old(subscribers) + [s]
      ensures log == old(log) && closed == old(closed)
    {
      if !closed {
        if s in subscribers {
          subscribers := Unsubscribed(subscribers, s);
        } else {
          subscribers := subscribers + [s];
        }
      }
    }

    /** `submit`: an open publisher passes the item on; a closed one throws
        `IllegalStateException`, reported here as `ok == false`. */
    method Submit(item: ConfigValue) returns (ok: bool)
      modifies this
      ensures ok == !old(closed)
      ensures log == if ok then old(log) + [item] else old(log)
      ensures closed == old(closed) && subscribers == old(subscribers)
    {
      if closed {
        ok := false;
      } else {
        log := log + [item];
        ok := true;
      }
    }

    /** `onSubscribe`: the processor asks its upstream for unbounded demand. */
    method OnSubscribe(subscription: Subscription)
      modifies subscription
      ensures subscription.requests == old(subscription.requests) + [LongMax]
    {
      subscription.Request(LongMax);
    }

    /** `onNext`: the item is stored under its key first, then submitted
        once, as itself. The store happens even when the submission is
        refused. */
    method OnNext(item: ConfigValue) returns (ok: bool)
      modifies this, model
      ensures model.values == Put(old(model.values), item)
      ensures ok == !old(closed)
      ensures log == if ok then old(log) + [item] else old(log)
      ensures closed == old(closed) && subscribers == old(subscribers)
    {
      model.Add(item);
      ok := Submit(item);
    }

    /** `onError`: the error is only reported; nothing changes. */
    method OnError()
      ensures log == old(log) && model.values == old(model.values)
      ensures closed == old(closed) && subscribers == old(subscribers)
    {
    }

    /** `onComplete`: the publisher is closed, for good; `close` completes
        every subscriber and drops it. */
    method OnComplete()
      modifies this
      ensures closed && subscribers == []
      ensures log == old(log)
    {
      closed := true;
      subscribers := [];
    }
  }

  /** Once closed, the processor stays closed through any further calls,
      registers no subscriber, and every later item is stored but no longer
      submitted. */
  method ClosedIsTerminal(p: ConfigProcessor, item: ConfigValue, s: object) returns (ok: bool)
    modifies p, p.model
    ensures p.closed && !ok
    ensures p.log == old(p.log) && p.subscribers == []
    ensures p.model.values == Put(old(p.model.values), item)
  {
    p.OnComplete();
    p.Subscribe(s);
    ok := p.OnNext(item);
    p.OnError();
    var again := p.Submit(item);
    assert !again;
  }
}
