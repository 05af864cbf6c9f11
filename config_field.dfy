/** A text field bound to one configuration key (`ConfigBoundTextField`).
    The Swing widget is reduced to its text. */
module ConfigField {
  import opened ConfigModel
  import opened ConfigFlow

  class ConfigBoundTextField {
    const configKey: string
    const processor: ConfigProcessor
    var text: string
    /** Raised while the field itself sets its text, so that the change is
        not published back. */
    var internalUpdate: bool

    /** The field starts empty and subscribes itself to the processor. */
    constructor(configKey: string, processor: ConfigProcessor)
      modifies processor
      ensures this.configKey == configKey && this.processor == processor
      ensures text == [] && !internalUpdate
      ensures processor.subscribers == if old(processor.closed) then old(processor.subscribers)
        else old(processor.subscribers) + [this]
      ensures this in processor.subscribers <==> !processor.closed
      ensures processor.log == old(processor.log) && processor.closed == old(processor.closed)
    {
      this.configKey := configKey;
      this.processor := processor;
      text := [];
      internalUpdate := false;
      new;
      processor.Subscribe(this);
    }

    /** `publish`: unless the field is updating itself, its key and current
        text go to the processor's `onNext`. */
    method Publish() returns (ok: bool)
      modifies processor, processor.model
      ensures old(internalUpdate) ==>
        && ok
        && processor.log == old(processor.log)
        && processor.model.values == old(processor.model.values)
      ensures !old(internalUpdate) ==>
        && processor.model.values == Put(old(processor.model.values), ConfigValue(configKey, JString(text)))
        && ok == !old(processor.closed)
        && processor.log == if ok then old(processor.log) + [ConfigValue(configKey, JString(text))]
                            else old(processor.log)
      ensures processor.closed == old(processor.closed)
      ensures processor.subscribers == old(processor.subscribers)
    {
      ok := true;
      if !internalUpdate {
        ok := processor.OnNext(ConfigValue(configKey, JString(text)));
      }
    }

    /** `onSubscribe`: one item is requested, and the text is taken from
        the model when it holds the key. */
    method OnSubscribe(subscription: Subscription)
      modifies this, subscription
      ensures subscription.requests == old(subscription.requests) + [1]
      ensures text == if configKey in processor.model.values
        then ValueOf(processor.model.values[configKey].value) else old(text)
      ensures internalUpdate == (old(internalUpdate) && configKey !in processor.model.values)
    {
      subscription.Request(1);
      var v := processor.model.Get(configKey);
      if v.Some? {
        internalUpdate := true;
        text := ValueOf(v.value.value);
        internalUpdate := false;
      }
    }

    /** `onNext`: an item for another key is ignored; an item for this key
        replaces the text with its rendering unless that is the text
        already. No further demand is signalled. */
    method OnNext(item: ConfigValue)
      modifies this
      ensures item.key != configKey || ValueOf(item.value) == old(text) ==>
        text == old(text) && internalUpdate == old(internalUpdate)
      ensures item.key == configKey && ValueOf(item.value) != old(text) ==>
        text == ValueOf(item.value) && !internalUpdate
      ensures item.key == configKey ==> text == ValueOf(item.value)
      ensures !old(internalUpdate) ==> !internalUpdate
    {
      if item.key == configKey {
        var incoming := ValueOf(item.value);
        if incoming != text {
          internalUpdate := true;
          text := incoming;
          internalUpdate := false;
        }
      }
    }

    /** `onError` only reports the error. */
    method OnError()
      ensures text == old(text) && internalUpdate == old(internalUpdate)
    {
    }

    /** `onComplete` does nothing. */
    method OnComplete()
      ensures text == old(text) && internalUpdate == old(internalUpdate)
    {
    }
  }

  /** A subscribed field has asked for exactly one item in total, and
      `onNext` never asks for more, whatever items are passed to it: the
      demand the publisher must respect stays one. */
  method SubscribeThenReceive(field: ConfigBoundTextField, subscription: Subscription, items: seq<ConfigValue>)
    requires subscription.requests == [] && !field.internalUpdate
    modifies field, subscription
    ensures subscription.requests == [1] && Demand(subscription.requests) == 1
    ensures !field.internalUpdate
  {
    field.OnSubscribe(subscription);
    var i := 0;
    while i < |items|
      invariant 0 <= i <= |items|
      invariant subscription.requests == [1]
      invariant !field.internalUpdate
    {
      field.OnNext(items[i]);
      i := i + 1;
    }
    DemandSnoc([], 1);
  }

  /** What a field publishes is what another field bound to the same key
      shows once it subscribes. */
  method PublishThenSync(source: ConfigBoundTextField, target: ConfigBoundTextField, subscription: Subscription)
    requires !source.internalUpdate
    requires source.processor == target.processor && source.configKey == target.configKey
    requires source != target
    modifies source.processor, source.processor.model, target, subscription
    ensures target.text == source.text
  {
    var _ := source.Publish();
    target.OnSubscribe(subscription);
  }
}
