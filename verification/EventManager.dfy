/**
 `EventManager`: the registry of subscriptions, the filter of a subscription, and which
 events reach the channel with their payload. Each method is one lock region (publishing is
 two: the payload check and the send), so any interleaving is a sequence of these calls.
 */
module EventManager {
  import opened Common
  import Decimal

  type Uuid = nat

  datatype Priority = Background | Low | Normal | High | Critical

  // The payload is its serialized JSON.
  datatype Event = Event(
    eventType: string,
    queue: string,
    priority: Priority,
    processingTimeMs: Option<nat>,
    payload: Option<string>,
    metadata: map<string, string>)

  datatype EventFilter = EventFilter(
    eventTypes: seq<string>,
    queueNames: seq<string>,
    priorities: seq<Priority>,
    minProcessingTimeMs: Option<nat>,
    maxProcessingTimeMs: Option<nat>,
    metadataFilters: map<string, string>,
    includePayload: bool)

  predicate InRange(f: EventFilter, time: Option<nat>) {
    (f.minProcessingTimeMs.Some? || f.maxProcessingTimeMs.Some?) ==>
      && time.Some?
      && (f.minProcessingTimeMs.Some? ==> f.minProcessingTimeMs.value <= time.value)
      && (f.maxProcessingTimeMs.Some? ==> time.value <= f.maxProcessingTimeMs.value)
  }

  /** The times a filter refuses: below its minimum, above its maximum, or missing when it has a bound. */
  lemma RefusedTimes(f: EventFilter, time: Option<nat>)
    ensures !InRange(f, time) <==>
      || (time.None? && !(f.minProcessingTimeMs.None? && f.maxProcessingTimeMs.None?))
      || (time.Some? && f.minProcessingTimeMs.Some? && time.value < f.minProcessingTimeMs.value)
      || (time.Some? && f.maxProcessingTimeMs.Some? && time.value > f.maxProcessingTimeMs.value)
  {
  }

  /** The filter check, with its early returns and its loop over the metadata filters. */
  method Matches(f: EventFilter, e: Event) returns (r: bool)
    ensures r <==>
      && (f.eventTypes == [] || e.eventType in f.eventTypes)
      && (f.queueNames == [] || e.queue in f.queueNames)
      && (f.priorities == [] || e.priority in f.priorities)
      && InRange(f, e.processingTimeMs)
      && (forall k :: k in f.metadataFilters ==> k in e.metadata && e.metadata[k] == f.metadataFilters[k])
    ensures f == EventFilter([], [], [], None, None, map[], f.includePayload) ==> r
  {
    if f.eventTypes != [] && e.eventType !in f.eventTypes {
      return false;
    }
    if f.queueNames != [] && e.queue !in f.queueNames {
      return false;
    }
    if f.priorities != [] && e.priority !in f.priorities {
      return false;
    }
    if f.minProcessingTimeMs.Some? || f.maxProcessingTimeMs.Some? {
      if e.processingTimeMs.None? {
        return false;
      }
      if f.minProcessingTimeMs.Some? && e.processingTimeMs.value < f.minProcessingTimeMs.value {
        return false;
      }
      if f.maxProcessingTimeMs.Some? && e.processingTimeMs.value > f.maxProcessingTimeMs.value {
        return false;
      }
    }
    var keys := f.metadataFilters.Keys;
    while keys != {}
      invariant keys <= f.metadataFilters.Keys
      invariant forall k :: k in f.metadataFilters && k !in keys ==>
        k in e.metadata && e.metadata[k] == f.metadataFilters[k]
    {
      var k :| k in keys;
      if k !in e.metadata || e.metadata[k] != f.metadataFilters[k] {
        return false;
      }
      keys := keys - {k};
    }
    return true;
  }

  datatype Config = Config(maxBufferSize: nat, includePayloadDefault: bool, maxPayloadSizeBytes: nat)

  /** The metadata entry put in place of a payload that is too large. */
  const TRUNCATED := "payload_truncated"

  function Notice(size: nat, limit: nat): string {
    "Payload size " + Decimal.Print(size) + " exceeded limit " + Decimal.Print(limit)
  }

  /** Some of the subscriptions asks for payloads, or all of them get payloads. */
  ghost predicate Wanted(config: Config, live: map<Uuid, EventFilter>) {
    config.includePayloadDefault || exists id :: id in live && live[id].includePayload
  }

  ghost predicate PartOf(some: map<Uuid, EventFilter>, all: map<Uuid, EventFilter>) {
    forall id :: id in some ==> id in all && some[id] == all[id]
  }

  class EventManager {
    const config: Config
    var subscriptions: map<Uuid, EventFilter>
    var checked: seq<Event>           // events that passed the payload check, by publisher
    var channel: seq<Event>
    ghost var issued: map<Uuid, EventFilter>   // every subscription ever made
    ghost var ended: set<Uuid>                 // those dropped or unsubscribed since
    ghost var seen: seq<map<Uuid, EventFilter>>   // for each checked event, the registry at its check

    /** The registry is exactly the subscriptions that have not ended; payloads are accounted for. */
    ghost predicate Valid()
      reads this
    {
      && ended <= issued.Keys
      && subscriptions == Live()
      && |seen| == |checked|
      && (forall n :: 0 <= n < |seen| ==> PartOf(seen[n], issued))
      && (forall n :: 0 <= n < |checked| && checked[n].payload.Some? ==>
            Wanted(config, seen[n]) && |checked[n].payload.value| <= config.maxPayloadSizeBytes)
      && (forall e :: e in channel ==> e in checked)
    }

    /** The subscriptions made and not ended since. */
    ghost function Live(): map<Uuid, EventFilter>
      reads this
    {
      issued - ended
    }

    constructor (config: Config)
      ensures Valid() && this.config == config && issued == map[] && channel == []
    {
      this.config := config;
      subscriptions, checked, channel := map[], [], [];
      issued, ended, seen := map[], {}, [];
    }

    method Subscribe(filter: EventFilter, id: Uuid)
      requires Valid() && id !in issued
      modifies this`subscriptions, this`issued
      ensures Valid() && issued == old(issued)[id := filter]
    {
      subscriptions := subscriptions[id := filter];
      issued := issued[id := filter];
      assert subscriptions == Live();
    }

    /** `unsubscribe`, and dropping the subscription: both may happen, in any order. */
    method Remove(id: Uuid)
      requires Valid()
      modifies this`subscriptions, this`ended
      ensures Valid() && ended == old(ended) + (if id in issued then {id} else {})
      ensures id !in subscriptions
    {
      subscriptions := subscriptions - {id};
      if id in issued {
        ended := ended + {id};
      }
      assert subscriptions == Live();
    }

    method PayloadWanted() returns (r: bool)
      requires Valid()
      ensures r <==> Wanted(config, Live())
    {
      if config.includePayloadDefault {
        return true;
      }
      var ids := subscriptions.Keys;
      while ids != {}
        invariant ids <= subscriptions.Keys
        invariant forall id :: id in subscriptions && id !in ids ==> !subscriptions[id].includePayload
      {
        var id :| id in ids;
        if subscriptions[id].includePayload {
          return true;
        }
        ids := ids - {id};
      }
      return false;
    }

    /** The first half of `publish_event`: strip the payload unless it is wanted and small enough. */
    method Check(event: Event)
      requires Valid()
      modifies this`checked, this`seen
      ensures Valid() && |checked| == |old(checked)| + 1 && checked[..|old(checked)|] == old(checked)
      ensures seen == old(seen) + [Live()]
      ensures var e := checked[|old(checked)|];
        && e.(payload := None, metadata := map[]) == event.(payload := None, metadata := map[])
        && (e.payload == event.payload <==>
              (event.payload.Some? ==> Wanted(config, Live()) && |event.payload.value| <= config.maxPayloadSizeBytes))
        && (e.payload != event.payload ==> e.payload.None?)
        && e.metadata == if event.payload.Some? && Wanted(config, Live())
                            && |event.payload.value| > config.maxPayloadSizeBytes
                         then event.metadata[TRUNCATED := Notice(|event.payload.value|, config.maxPayloadSizeBytes)]
                         else event.metadata
    {
      var e := event;
      var isWanted := PayloadWanted();
      if event.payload.Some? {
        if !isWanted {
          e := e.(payload := None);
        } else if |event.payload.value| > config.maxPayloadSizeBytes {
          var notice := Notice(|event.payload.value|, config.maxPayloadSizeBytes);
          e := e.(payload := None, metadata := e.metadata[TRUNCATED := notice]);
        }
      }
      checked := checked + [e];
      seen := seen + [Live()];
    }

    /** The second half: the event goes to the channel, whatever happened to the registry since. */
    method Send(n: nat)
      requires Valid() && n < |checked|
      modifies this`channel
      ensures Valid() && channel == if config.maxBufferSize == 0 then old(channel) else old(channel) + [checked[n]]
    {
      if config.maxBufferSize != 0 {
        channel := channel + [checked[n]];
      }
    }

    /**
     Over every run: for a payload in the channel, payloads are on by default or some
     subscription, made by then and live at the check of this event, asked for it; and the
     payload is within the limit.
     */
    lemma ChannelPayloadsWereWanted(k: nat) returns (n: nat)
      requires Valid() && k < |channel| && channel[k].payload.Some?
      ensures n < |checked| && n < |seen| && checked[n] == channel[k]
      ensures config.includePayloadDefault || exists id :: id in seen[n] && id in issued && issued[id].includePayload
      ensures |channel[k].payload.value| <= config.maxPayloadSizeBytes
    {
      assert channel[k] in channel;
      n :| 0 <= n < |checked| && checked[n] == channel[k];
      assert Wanted(config, seen[n]) && PartOf(seen[n], issued);
    }
  }
}
