/** The client side of the server-sent-event hooks (app/lib/eventstream.ts):
    the state step run by a subscription's message handler, the listener
    bookkeeping done when a subscription is (re)attached or torn down, and
    the process-wide registry that shares one event source per URL. */
module EventStream {
  import opened Outcomes

  /** The JavaScript values a subscription's state can hold. Numbers are
      integers here; `Obj` is any other object, known by its identity. */
  datatype Value =
    | Undefined
    | Null
    | Bool(b: bool)
    | Num(n: int)
    | Str(s: string)
    | Arr(items: seq<Value>)
    | Obj(ref: nat)

  /** The values JavaScript treats as false in a condition. */
  predicate Falsy(v: Value)
  {
    v.Undefined? || v.Null? || v == Bool(false) || v == Num(0) || v == Str("")
  }

  /** What a step can throw: a `TypeError` from the runtime, or the error a
      deserializer threw, with its message. */
  datatype JsError = TypeError | Thrown(message: string)

  /** The one-character strings a string spreads into. */
  function Chars(s: string): (r: seq<Value>)
    ensures |r| == |s|
    ensures forall i :: 0 <= i < |s| ==> r[i] == Str([s[i]])
  {
    seq(|s|, i requires 0 <= i < |s| => Str([s[i]]))
  }

  /** `[...v]`: strings spread into their characters, arrays into their
      elements; spreading anything else throws a `TypeError`. */
  function Spread(v: Value): (r: Result<seq<Value>, JsError>)
    ensures r.Success? <==> v.Str? || v.Arr?
    ensures r.Failure? ==> r.error == TypeError
    ensures v.Str? ==> |r.value| == |v.s| && forall i :: 0 <= i < |v.s| ==> r.value[i] == Str([v.s[i]])
    ensures v.Arr? ==> r.value == v.items
  {
    match v
    case Str(s) => Success(Chars(s))
    case Arr(items) => Success(items)
    case _ => Failure(TypeError)
  }

  /** `addNewEvent(event, events, maxEvents)` as written: below the bound the
      event is appended; above it `events.shift()` removes the first element
      and that single element, not the rest of the array, is spread in front
      of the event. `shift()` of an empty array yields `undefined`. */
  function AddNewEvent(event: Value, events: seq<Value>, maxEvents: int): (r: Result<seq<Value>, JsError>)
    ensures |events| <= maxEvents ==> r == Success(events + [event])
    ensures |events| > maxEvents && |events| > 0 ==>
      r == (match Spread(events[0])
            case Success(xs) => Success(xs + [event])
            case Failure(e) => Failure(e))
    ensures |events| > maxEvents && |events| == 0 ==> r == Failure(TypeError)
  {
    if |events| > maxEvents then
      var removed := if |events| == 0 then Undefined else events[0];
      var spread :- Spread(removed);
      Success(spread + [event])
    else
      Success(events + [event])
  }

  /** The options a caller passes. An omitted `maxEventRetention`, `channel`
      or `deserialize` is `None`; an omitted `initialData` is `Undefined`. */
  datatype Options = Options(
    maxEventRetention: Option<int>,
    channel: Option<string>,
    returnLatestOnly: bool,
    deserialize: Option<string -> Result<Value, string>>,
    initialData: Value)

  const DefaultRetention: int := 50
  const DefaultChannel: string := "message"

  /** The default parameter used when no options object is passed at all. */
  const DefaultOptions: Options :=
    Options(Some(DefaultRetention), Some(DefaultChannel), false, None, Undefined)

  /** The options object the hook works with. */
  function Effective(options: Option<Options>): Options
  {
    options.GetOr(DefaultOptions)
  }

  /** `maxEventRetention ?? 50`. */
  function MaxRetention(o: Options): int
  {
    o.maxEventRetention.GetOr(DefaultRetention)
  }

  /** `channel ?? "message"`. */
  function Channel(o: Options): string
  {
    o.channel.GetOr(DefaultChannel)
  }

  /** `initialData ?? null`: the state before the first message. */
  function InitialState(o: Options): (v: Value)
    ensures !v.Undefined?
    ensures o.initialData.Null? || o.initialData.Undefined? ==> v == Null
    ensures !(o.initialData.Null? || o.initialData.Undefined?) ==> v == o.initialData
  {
    if o.initialData.Null? || o.initialData.Undefined? then Null else o.initialData
  }

  /** The payload handed to the state update: the raw text when there is no
      deserializer, otherwise whatever the deserializer returns or throws. */
  function Deserialize(o: Options, raw: string): Result<Value, JsError>
  {
    match o.deserialize
    case None => Success(Str(raw))
    case Some(f) =>
      match f(raw)
      case Success(v) => Success(v)
      case Failure(m) => Failure(Thrown(m))
  }

  /** The state update performed by the handler for one message:
      latest-only replaces the state; otherwise an array state gets the
      payload added by `AddNewEvent`, a false-like state starts a new
      history, and any other state is left alone. */
  function Step(previous: Value, raw: string, o: Options): (r: Result<Value, JsError>)
    ensures Deserialize(o, raw).Failure? ==> r == Failure(Deserialize(o, raw).error)
    ensures o.returnLatestOnly ==> r == Deserialize(o, raw)
    ensures !o.returnLatestOnly && r.Success? && r.value != previous ==>
      && r.value.Arr? && |r.value.items| >= 1
      && r.value.items[|r.value.items| - 1] == Deserialize(o, raw).value
    ensures !o.returnLatestOnly && (previous.Arr? || Falsy(previous)) && r.Success? ==> r.value.Arr?
  {
    var payload :- Deserialize(o, raw);
    if o.returnLatestOnly then Success(payload)
    else if previous.Arr? then
      var events :- AddNewEvent(payload, previous.items, MaxRetention(o));
      Success(Arr(events))
    else if Falsy(previous) then
      var events :- AddNewEvent(payload, [], MaxRetention(o));
      Success(Arr(events))
    else Success(previous)
  }

  /** The state after a sequence of messages, or the first error thrown. */
  function Run(state: Value, raws: seq<string>, o: Options): Result<Value, JsError>
    decreases |raws|
  {
    if |raws| == 0 then Success(state)
    else
      match Step(state, raws[0], o)
      case Success(next) => Run(next, raws[1..], o)
      case Failure(e) => Failure(e)
  }

  /** In latest-only mode the new state is the payload, whatever the
      previous state was. */
  lemma StepLatestOnly(previous: Value, raw: string, o: Options)
    requires o.returnLatestOnly
    ensures Step(previous, raw, o) == Deserialize(o, raw)
    ensures o.deserialize.None? ==> Step(previous, raw, o) == Success(Str(raw))
  {
  }

  /** After any non-empty sequence of messages in latest-only mode, each of
      which the deserializer (if any) accepts, the state is the payload of
      the last one: the raw text without a deserializer, its deserialized
      value with one. */
  lemma {:induction false} RunLatestOnly(state: Value, raws: seq<string>, o: Options)
    requires o.returnLatestOnly && |raws| > 0
    requires forall k :: 0 <= k < |raws| ==> Deserialize(o, raws[k]).Success?
    ensures Run(state, raws, o) == Deserialize(o, raws[|raws| - 1])
    ensures o.deserialize.None? ==> Run(state, raws, o) == Success(Str(raws[|raws| - 1]))
    decreases |raws|
  {
    if |raws| > 1 {
      assert Deserialize(o, raws[0]).Success?;
      RunLatestOnly(Deserialize(o, raws[0]).value, raws[1..], o);
    }
  }

  /** In history mode an array of at most `max` entries grows by exactly the
      payload. */
  lemma StepAppends(items: seq<Value>, raw: string, o: Options)
    requires !o.returnLatestOnly
    requires |items| <= MaxRetention(o)
    ensures Deserialize(o, raw).Success? ==>
      Step(Arr(items), raw, o) == Success(Arr(items + [Deserialize(o, raw).value]))
    ensures Deserialize(o, raw).Failure? ==> Step(Arr(items), raw, o).Failure?
  {
  }

  /** In history mode a false-like state starts a one-element history,
      for every non-negative bound. */
  lemma StepStartsHistory(previous: Value, raw: string, o: Options)
    requires !o.returnLatestOnly && Falsy(previous)
    requires MaxRetention(o) >= 0
    requires Deserialize(o, raw).Success?
    ensures Step(previous, raw, o) == Success(Arr([Deserialize(o, raw).value]))
  {
    var payload := Deserialize(o, raw).value;
    assert [] + [payload] == [payload];
    assert AddNewEvent(payload, [], MaxRetention(o)) == Success([payload]);
  }

  /** With a negative bound, starting a history throws: the empty array is
      already over the bound and its `shift()` yields `undefined`. */
  lemma StepNegativeBoundThrows(previous: Value, raw: string, o: Options)
    requires !o.returnLatestOnly && Falsy(previous)
    requires MaxRetention(o) < 0
    requires Deserialize(o, raw).Success?
    ensures Step(previous, raw, o) == Failure(TypeError)
  {
  }

  /** In history mode a state that is neither an array nor false-like is
      returned unchanged. */
  lemma StepKeepsOtherState(previous: Value, raw: string, o: Options)
    requires !o.returnLatestOnly && !previous.Arr? && !Falsy(previous)
    requires Deserialize(o, raw).Success?
    ensures Step(previous, raw, o) == Success(previous)
  {
  }

  /** The overflow branch as written: once a history has more than `max`
      entries, the next state is the characters of the oldest string entry
      followed by the payload, and an oldest entry that is not iterable
      makes the step throw. */
  lemma StepOverflow(items: seq<Value>, raw: string, o: Options)
    requires !o.returnLatestOnly && o.deserialize.None?
    requires |items| > MaxRetention(o) && |items| > 0
    ensures items[0].Str? ==> Step(Arr(items), raw, o) == Success(Arr(Chars(items[0].s) + [Str(raw)]))
    ensures items[0].Obj? || items[0].Num? || items[0].Null? ==> Step(Arr(items), raw, o) == Failure(TypeError)
  {
  }

  /** Omitting the options object, or its bound and channel, means a bound of
      50 entries on the "message" channel. */
  lemma Defaults(o: Options)
    requires o.maxEventRetention.None? && o.channel.None?
    ensures MaxRetention(Effective(None)) == 50 && Channel(Effective(None)) == "message"
    ensures MaxRetention(o) == 50 && Channel(o) == "message"
  {
  }

  /** Strings of the raw payloads. */
  function Strs(raws: seq<string>): (vs: seq<Value>)
    ensures |vs| == |raws|
    ensures forall i :: 0 <= i < |raws| ==> vs[i] == Str(raws[i])
  {
    seq(|raws|, i requires 0 <= i < |raws| => Str(raws[i]))
  }

  /** Because trimming starts only when the length exceeds the bound, a
      history started from nothing holds the first `max + 1` payloads
      unchanged. */
  lemma {:induction false} HistoryHoldsMaxPlusOne(raws: seq<string>, o: Options, n: nat)
    requires !o.returnLatestOnly && o.deserialize.None?
    requires n <= |raws| && n <= MaxRetention(o) + 1
    ensures Run(Null, raws[..n], o) == Success(if n == 0 then Null else Arr(Strs(raws[..n])))
  {
    if n > 0 {
      var prefix := raws[..n - 1];
      HistoryHoldsMaxPlusOne(raws, o, n - 1);
      RunSnoc(Null, prefix, raws[n - 1], o);
      assert raws[..n] == prefix + [raws[n - 1]];
      if n > 1 {
        assert Strs(prefix) + [Str(raws[n - 1])] == Strs(raws[..n]);
      } else {
        assert Strs(raws[..n]) == [Str(raws[0])];
        StepStartsHistory(Null, raws[0], o);
      }
    }
  }

  /** Running one more message is one more step. */
  lemma {:induction false} RunSnoc(state: Value, raws: seq<string>, raw: string, o: Options)
    ensures Run(state, raws + [raw], o)
         == (match Run(state, raws, o)
             case Success(s) => Step(s, raw, o)
             case Failure(e) => Failure(e))
    decreases |raws|
  {
    if |raws| > 0 {
      assert (raws + [raw])[1..] == raws[1..] + [raw];
      match Step(state, raws[0], o)
      case Success(next) => RunSnoc(next, raws[1..], raw, o);
      case Failure(_) =>
    }
  }

  /** The home page subscribes with a bound of 0 and no `returnLatestOnly`:
      its first message starts a one-element history and its second message
      already takes the overflow branch, leaving the characters of the first
      message followed by the second. */
  lemma HomePageSecondMessage(first: string, second: string)
    ensures var o := Options(Some(0), Some("friends"), false, None, Undefined);
            Run(InitialState(o), [first, second], o)
              == Success(Arr(Chars(first) + [Str(second)]))
  {
    var o := Options(Some(0), Some("friends"), false, None, Undefined);
    StepStartsHistory(Null, first, o);
    StepOverflow([Str(first)], second, o);
    assert InitialState(o) == Null;
    assert [first, second][1..] == [second];
    assert Run(Arr([Str(first)]), [second], o) == Run(Arr(Chars(first) + [Str(second)]), [], o);
  }

  /** The bounded history the source evidently intends: when over the bound,
      drop the oldest entry and append the payload. */
  function AddNewEventIntended(event: Value, events: seq<Value>, maxEvents: int): (r: seq<Value>)
    ensures |events| > maxEvents && |events| > 0 ==> |r| == |events|
    ensures |events| <= maxEvents || |events| == 0 ==> |r| == |events| + 1
  {
    if |events| > maxEvents && |events| > 0 then events[1..] + [event]
    else events + [event]
  }

  /** The history after a sequence of payloads, under the intended rule. */
  function HistoryIntended(events: seq<Value>, maxEvents: int): seq<Value>
  {
    if |events| == 0 then []
    else AddNewEventIntended(events[|events| - 1], HistoryIntended(events[..|events| - 1], maxEvents), maxEvents)
  }

  /** Under the intended rule a history with a bound `max >= 0` is always the
      most recent `max + 1` payloads, in arrival order. */
  lemma {:induction false} IntendedKeepsLatest(events: seq<Value>, maxEvents: int)
    requires maxEvents >= 0
    ensures var keep := if |events| <= maxEvents + 1 then |events| else maxEvents + 1;
            HistoryIntended(events, maxEvents) == events[|events| - keep..]
  {
    if |events| > 0 {
      var n := |events|;
      var before := events[..n - 1];
      var last := events[n - 1];
      IntendedKeepsLatest(before, maxEvents);
      var history := HistoryIntended(before, maxEvents);
      assert HistoryIntended(events, maxEvents) == AddNewEventIntended(last, history, maxEvents);
      if n - 1 <= maxEvents {
        assert history == before;
        assert before + [last] == events;
      } else if n - 1 == maxEvents + 1 {
        assert history == before;
        assert before[1..] + [last] == events[1..];
      } else {
        var from := n - 1 - (maxEvents + 1);
        assert history == before[from..];
        assert |history| == maxEvents + 1;
        assert history[1..] + [last] == events[from + 1..];
      }
    }
  }

  /** The as-written overflow is not the sliding window: with bound 1, after
      "ab" and "c" the payload "d" leaves "a", "b", "d" where the intended
      rule leaves "c", "d"; and an object history throws. */
  lemma OverflowIsNotWindow()
    ensures AddNewEvent(Str("d"), [Str("ab"), Str("c")], 1) == Success([Str("a"), Str("b"), Str("d")])
    ensures AddNewEventIntended(Str("d"), [Str("ab"), Str("c")], 1) == [Str("c"), Str("d")]
    ensures AddNewEvent(Obj(3), [Obj(1), Obj(2)], 1) == Failure(TypeError)
  {
    assert Str(["ab"[0]]) == Str("a") && Str(["ab"[1]]) == Str("b");
    assert Chars("ab") == [Str("a"), Str("b")];
    assert Spread(Str("ab")) == Success([Str("a"), Str("b")]);
    var events := [Str("ab"), Str("c")];
    assert events[0] == Str("ab");
    assert [Str("a"), Str("b")] + [Str("d")] == [Str("a"), Str("b"), Str("d")];
  }

  // ---------------------------------------------------------------------
  // Listener bookkeeping on one event source

  /** A handler registered for one channel; `handler` is the identity of the
      closure created by one run of the subscription effect. */
  datatype Listener = Listener(channel: string, handler: nat)

  /** `addEventListener`: a listener that is already registered is not added
      a second time. */
  function AddListener(ls: seq<Listener>, l: Listener): (r: seq<Listener>)
    ensures multiset(r)[l] == if l in ls then multiset(ls)[l] else 1
    ensures forall m :: m != l ==> multiset(r)[m] == multiset(ls)[m]
  {
    if l in ls then ls else ls + [l]
  }

  /** `removeEventListener`: the listener is gone, the others keep their
      order. */
  function RemoveListener(ls: seq<Listener>, l: Listener): (r: seq<Listener>)
    ensures l !in r
    ensures forall m :: m != l ==> multiset(r)[m] == multiset(ls)[m]
  {
    if |ls| == 0 then []
    else
      assert ls == [ls[0]] + ls[1..];
      (if ls[0] == l then [] else [ls[0]]) + RemoveListener(ls[1..], l)
  }

  /** The subscription effect: without an event source nothing is registered
      and there is nothing to clean up; with one, the handler is removed and
      added again on its channel, and the listener to remove at cleanup is
      returned. */
  function Attach(ls: seq<Listener>, hasSource: bool, o: Options, handler: nat): (r: (seq<Listener>, Option<Listener>))
    ensures !hasSource ==> r == (ls, None)
    ensures hasSource ==> r.1 == Some(Listener(Channel(o), handler))
    ensures hasSource ==> multiset(r.0)[Listener(Channel(o), handler)] == 1
    ensures forall m :: m != Listener(Channel(o), handler) ==> multiset(r.0)[m] == multiset(ls)[m]
  {
    if !hasSource then (ls, None)
    else
      var l := Listener(Channel(o), handler);
      (AddListener(RemoveListener(ls, l), l), Some(l))
  }

  /** The cleanup returned by the effect. */
  function Detach(ls: seq<Listener>, cleanup: Option<Listener>): (r: seq<Listener>)
    ensures cleanup.Some? ==> cleanup.value !in r
    ensures forall m :: cleanup != Some(m) ==> multiset(r)[m] == multiset(ls)[m]
  {
    match cleanup
    case None => ls
    case Some(l) => RemoveListener(ls, l)
  }

  /** The handlers a message on `channel` reaches, in registration order. */
  function Receivers(ls: seq<Listener>, channel: string): (hs: seq<nat>)
    ensures forall h :: h in hs <==> Listener(channel, h) in ls
  {
    if |ls| == 0 then []
    else
      assert ls == [ls[0]] + ls[1..];
      (if ls[0].channel == channel then [ls[0].handler] else []) + Receivers(ls[1..], channel)
  }

  /** Re-running the effect (cleanup of the previous run, then the new run)
      leaves the new handler registered exactly once, the previous one gone, and
      every other listener as it was. */
  lemma Resubscribe(ls: seq<Listener>, previous: Listener, o: Options, handler: nat)
    requires previous != Listener(Channel(o), handler)
    ensures var r := Attach(Detach(ls, Some(previous)), true, o, handler).0;
            && multiset(r)[Listener(Channel(o), handler)] == 1
            && previous !in r
            && forall m :: m != previous && m != Listener(Channel(o), handler) ==> multiset(r)[m] == multiset(ls)[m]
  {
    var detached := Detach(ls, Some(previous));
    var r := Attach(detached, true, o, handler).0;
    assert multiset(detached)[previous] == 0;
    assert multiset(r)[previous] == 0;
  }

  /** Two subscriptions attached to the same source and channel both receive
      every later message on that channel. */
  lemma BothSubscribersReceive(ls: seq<Listener>, o1: Options, h1: nat, o2: Options, h2: nat)
    requires Channel(o1) == Channel(o2)
    ensures var once := Attach(ls, true, o1, h1).0;
            var twice := Attach(once, true, o2, h2).0;
            h1 in Receivers(twice, Channel(o1)) && h2 in Receivers(twice, Channel(o1))
  {
    var l1 := Listener(Channel(o1), h1);
    var once := Attach(ls, true, o1, h1).0;
    var twice := Attach(once, true, o2, h2).0;
    assert multiset(once)[l1] == 1;
    if l1 != Listener(Channel(o2), h2) {
      assert multiset(twice)[l1] == 1;
    }
  }

  // ---------------------------------------------------------------------
  // Source registry and the per-hook creation latch

  /** Identity of an event source object. */
  type SourceId = nat

  /** The module-level map from URL to event source, with the number of
      event sources constructed so far (the next one gets that number). */
  datatype Registry = Registry(sources: map<string, SourceId>, constructed: nat)

  /** Every stored source was constructed before. */
  predicate Valid(reg: Registry)
  {
    forall url :: url in reg.sources ==> reg.sources[url] < reg.constructed
  }

  /** `sources.get(url) || new EventSource(url)` followed by
      `sources.set(url, _source)`: a known URL gets its cached source back,
      an unknown one a newly constructed source; afterwards the map holds the
      URL bound to the returned source and other URLs are untouched. */
  function GetOrCreate(reg: Registry, url: string): (r: (SourceId, Registry))
    ensures url in reg.sources ==> r.0 == reg.sources[url] && r.1 == reg
    ensures url !in reg.sources ==> r.0 == reg.constructed && r.1.constructed == reg.constructed + 1
    ensures r.1.sources == reg.sources[url := r.0]
    ensures Valid(reg) ==> Valid(r.1)
    ensures Valid(reg) && url !in reg.sources ==> r.0 !in reg.sources.Values
  {
    if url in reg.sources then (reg.sources[url], Registry(reg.sources[url := reg.sources[url]], reg.constructed))
    else (reg.constructed, Registry(reg.sources[url := reg.constructed], reg.constructed + 1))
  }

  /** Per-hook state: the `createdRef` latch and the selected source. */
  datatype Hook = Hook(created: bool, source: Option<SourceId>)

  const NewHook: Hook := Hook(false, None)

  /** The selection effect of `useEventStream`: once the latch is set it does
      nothing, whatever URL it runs with. */
  function SelectSource(h: Hook, reg: Registry, url: string): (r: (Hook, Registry))
    ensures h.created ==> r == (h, reg)
    ensures !h.created ==> r.0.created && r.0.source == Some(GetOrCreate(reg, url).0)
    ensures r.0.created
  {
    if h.created then (h, reg)
    else
      var (s, reg') := GetOrCreate(reg, url);
      (Hook(true, Some(s)), reg')
  }

  /** A hook instance selects its source at most once: later runs of the
      effect, even with another URL, change neither the hook nor the
      registry. */
  lemma SelectedOnce(h: Hook, reg: Registry, url: string, url': string)
    ensures var (h1, reg1) := SelectSource(h, reg, url);
            SelectSource(h1, reg1, url') == (h1, reg1)
  {
  }

  /** Two hook instances asking for the same URL share one source, and only
      one source is constructed for them. */
  lemma SameUrlSharesSource(reg: Registry, url: string)
    requires Valid(reg)
    ensures var (h1, reg1) := SelectSource(NewHook, reg, url);
            var (h2, reg2) := SelectSource(NewHook, reg1, url);
            && h1.source == h2.source
            && reg2 == reg1
            && reg2.constructed <= reg.constructed + 1
  {
  }
}
