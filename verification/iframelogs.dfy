/** The console capture of app/hooks/use-iframe-logs.ts: the iframe
    selector guard, the message filter and `[TYPE] message` formatting, the
    append-only log that is emptied when the game or iteration changes, and
    the injection of the console-override script into the iframe's
    `srcDoc`. */
module IframeLogs {
  import opened Outcomes
  import opened Lines

  /** An id is usable when it is given and is not the empty string. */
  predicate Present(id: Option<string>)
  {
    id.Some? && id.value != ""
  }

  /** The iframe selector: `#<game>-<iteration>-<element id>` when both ids
      are usable, otherwise none. */
  function Selector(gameId: Option<string>, iterationId: Option<string>, elementId: string): (r: Option<string>)
    ensures r.Some? <==> Present(gameId) && Present(iterationId)
    ensures r.Some? ==> r.value == "#" + gameId.value + "-" + iterationId.value + "-" + elementId
  {
    if Present(gameId) && Present(iterationId) then
      Some("#" + gameId.value + "-" + iterationId.value + "-" + elementId)
    else None
  }

  /** One argument of a console call: a string, an `Error` (by its message),
      or any other value, given by the text `JSON.stringify` (or `String`,
      when that throws) makes of it. */
  datatype Arg = StrArg(s: string) | ErrorArg(message: string) | OtherArg(text: string)

  /** The data of a window message: not an object (the `in` test throws), or
      an object with an optional string `type` and optional array `args`. */
  datatype MessageData = NotAnObject | Record(kind: Option<string>, args: Option<seq<Arg>>)

  /** The console methods whose calls are captured. */
  const ConsoleMethods: seq<string> := ["log", "warn", "error", "info", "debug"]

  function ArgText(a: Arg): string
  {
    match a
    case StrArg(s) => s
    case ErrorArg(m) => m
    case OtherArg(t) => t
  }

  function ArgTexts(args: seq<Arg>): (texts: seq<string>)
    ensures |texts| == |args|
    ensures forall i :: 0 <= i < |args| ==> texts[i] == ArgText(args[i])
  {
    seq(|args|, i requires 0 <= i < |args| => ArgText(args[i]))
  }

  /** `toUpperCase` on ASCII letters. */
  function UpperAscii(s: string): (r: string)
    ensures |r| == |s|
  {
    seq(|s|, i requires 0 <= i < |s| => if 'a' <= s[i] <= 'z' then (s[i] as int - 32) as char else s[i])
  }

  /** The log line of a captured call: the upper-cased method name in
      brackets and a space, then the argument texts separated by spaces, so
      that the line ends with the text of the last argument. */
  function Entry(kind: string, args: seq<Arg>): (r: string)
    ensures "[" + UpperAscii(kind) + "] " <= r
    ensures |args| == 0 ==> r == "[" + UpperAscii(kind) + "] "
    ensures |args| > 0 ==> EndsWith(r, ArgText(args[|args| - 1]))
  {
    var texts := ArgTexts(args);
    var head := "[" + UpperAscii(kind) + "] ";
    if |texts| == 0 then head + Join(texts, " ")
    else
      JoinEnds(texts, " ");
      EndsWithExtended(head, Join(texts, " "), texts[|texts| - 1]);
      head + Join(texts, " ")
  }

  /** A final segment stays final when something is put in front. */
  lemma EndsWithExtended(front: string, s: string, t: string)
    requires EndsWith(s, t)
    ensures EndsWith(front + s, t)
  {
    assert (front + s)[|front + s| - |t|..] == s[|s| - |t|..];
  }

  /** A message is captured when it is an object whose `type` is one of the
      console methods and whose `args` is an array. Anything else leaves the
      log alone: a non-object or a missing `args` array makes the handler
      throw before it updates the log. A captured call is logged under one
      of the five prefixes LOG, WARN, ERROR, INFO and DEBUG. */
  function Captured(data: MessageData): (r: bool)
    ensures r ==> && data.Record? && data.kind.Some? && data.args.Some?
                  && data.kind.value in {"log", "warn", "error", "info", "debug"}
                  && UpperAscii(data.kind.value) in {"LOG", "WARN", "ERROR", "INFO", "DEBUG"}
    ensures (data.Record? && data.kind.Some? && data.args.Some?
             && data.kind.value in {"log", "warn", "error", "info", "debug"}) ==> r
  {
    Prefixes();
    data.Record? && data.kind.Some? && data.kind.value in ConsoleMethods && data.args.Some?
  }

  /** The message handler: a captured call appends exactly one entry. */
  function HandleMessage(logs: seq<string>, data: MessageData): (r: seq<string>)
    ensures Captured(data) ==> r == logs + [Entry(data.kind.value, data.args.value)]
    ensures !Captured(data) ==> r == logs
  {
    if Captured(data) then logs + [Entry(data.kind.value, data.args.value)] else logs
  }

  /** `n` copies of `x`. */
  function Repeat(x: string, n: nat): (r: seq<string>)
    ensures |r| == n
    ensures forall k :: 0 <= k < n ==> r[k] == x
  {
    if n == 0 then [] else Repeat(x, n - 1) + [x]
  }

  /** A message reaching `listeners` live handlers: every handler updates
      the same log, so a captured call is appended once per handler. */
  function Deliver(logs: seq<string>, data: MessageData, listeners: nat): (r: seq<string>)
    ensures Captured(data) ==> r == logs + Repeat(Entry(data.kind.value, data.args.value), listeners)
    ensures !Captured(data) ==> r == logs
  {
    if listeners == 0 then logs else HandleMessage(Deliver(logs, data, listeners - 1), data)
  }

  /** The hook's inputs, its `logs` state, the number of its message
      listeners still installed on the window, and whether the last effect
      run returned the cleanup that removes its listener. */
  datatype LogState = LogState(gameId: Option<string>, iterationId: Option<string>, logs: seq<string>,
                               listeners: nat, removable: bool)

  /** A freshly mounted hook: no ids, no log, no listener. */
  const Fresh: LogState := LogState(None, None, [], 0, false)

  /** What reaches the hook: a render with (possibly new) ids, together
      with whether the iframe element exists at that point, or a window
      message. */
  datatype HookEvent = Render(gameId: Option<string>, iterationId: Option<string>, iframeFound: bool)
                     | Message(data: MessageData)

  /** Both effects re-run for new ids: the log is emptied; the previous
      cleanup, if one was returned, removes the previous listener; with a
      selector a new listener is added, and its cleanup is returned only
      when the iframe is found, or always when `cleanupWhenMissing`. */
  function Rerun(st: LogState, gameId: Option<string>, iterationId: Option<string>,
                 iframeFound: bool, cleanupWhenMissing: bool): (r: LogState)
    ensures r.logs == [] && r.gameId == gameId && r.iterationId == iterationId
    ensures r.listeners <= st.listeners + 1
    ensures r.removable <==> Present(gameId) && Present(iterationId) && (iframeFound || cleanupWhenMissing)
  {
    var kept := if st.removable && st.listeners > 0 then st.listeners - 1 else st.listeners;
    var listens := Present(gameId) && Present(iterationId);
    LogState(gameId, iterationId, [], if listens then kept + 1 else kept, listens && (iframeFound || cleanupWhenMissing))
  }

  /** One event. Effects re-run only when the ids change; a message is
      handled by every listener still installed. */
  function StepBy(st: LogState, e: HookEvent, cleanupWhenMissing: bool): LogState
  {
    match e
    case Render(g, i, found) =>
      if g == st.gameId && i == st.iterationId then st else Rerun(st, g, i, found, cleanupWhenMissing)
    case Message(data) => st.(logs := Deliver(st.logs, data, st.listeners))
  }

  /** One event as the hook is written: a missing iframe makes the effect
      return early, without the cleanup, after its listener was added. */
  function Step(st: LogState, e: HookEvent): (r: LogState)
    ensures e.Render? && (e.gameId != st.gameId || e.iterationId != st.iterationId) ==> r.logs == []
    ensures e.Render? && (e.gameId != st.gameId || e.iterationId != st.iterationId) ==>
      (r.removable <==> Present(e.gameId) && Present(e.iterationId) && e.iframeFound)
    ensures e.Message? ==> r.(logs := st.logs) == st
    ensures e.Message? && Captured(e.data) ==>
      r.logs == st.logs + Repeat(Entry(e.data.kind.value, e.data.args.value), st.listeners)
    ensures e.Message? && !Captured(e.data) ==> r == st
  {
    StepBy(st, e, false)
  }

  /** One event with the cleanup returned whenever a listener was added. */
  function StepIntended(st: LogState, e: HookEvent): (r: LogState)
    ensures e.Render? && (e.gameId != st.gameId || e.iterationId != st.iterationId) ==>
      (r.removable <==> Present(e.gameId) && Present(e.iterationId))
  {
    StepBy(st, e, true)
  }

  function Run(st: LogState, events: seq<HookEvent>): LogState
    decreases |events|
  {
    if |events| == 0 then st else Run(Step(st, events[0]), events[1..])
  }

  /** No listener outlives its ids: one removable listener while the ids
      give a selector, none otherwise. */
  predicate NoLeak(st: LogState)
  {
    var listens := Present(st.gameId) && Present(st.iterationId);
    st.listeners == (if listens then 1 else 0) && st.removable == listens
  }

  /** Every render finds the iframe. */
  predicate IframesFound(events: seq<HookEvent>)
  {
    forall k :: 0 <= k < |events| ==> events[k].Render? ==> events[k].iframeFound
  }

  /** While no listener has leaked, a message is ignored without a selector
      and logged exactly once with one. */
  lemma NoLeakMessage(st: LogState, data: MessageData)
    requires NoLeak(st)
    ensures Selector(st.gameId, st.iterationId, "").None? ==> Step(st, Message(data)) == st
    ensures Selector(st.gameId, st.iterationId, "").Some? ==>
      Step(st, Message(data)).logs == HandleMessage(st.logs, data)
  {
  }

  /** As written, a render whose iframe is found keeps listeners from
      leaking; so does every message. */
  lemma NoLeakKept(st: LogState, e: HookEvent)
    requires NoLeak(st)
    requires e.Render? ==> e.iframeFound
    ensures NoLeak(Step(st, e))
  {
  }

  /** As written, a mounted hook whose renders all find the iframe never
      leaks a listener. */
  lemma {:induction false} NoLeakRun(st: LogState, events: seq<HookEvent>)
    requires NoLeak(st) && IframesFound(events)
    ensures NoLeak(Run(st, events))
    decreases |events|
  {
    if |events| > 0 {
      NoLeakKept(st, events[0]);
      assert IframesFound(events[1..]) by {
        forall k | 0 <= k < |events[1..]| && events[1..][k].Render?
          ensures events[1..][k].iframeFound
        {
          assert events[1..][k] == events[k + 1];
        }
      }
      NoLeakRun(Step(st, events[0]), events[1..]);
    }
  }

  /** With the cleanup always returned, no event leaks a listener, whether
      or not the iframe is found. */
  lemma IntendedNeverLeaks(st: LogState, e: HookEvent)
    requires NoLeak(st)
    ensures NoLeak(StepIntended(st, e))
  {
  }

  /** As written, an iframe missing when the effect runs leaks its
      listener: after a later render with new ids and a found iframe one
      console call is logged twice, and after a render that drops the
      selector the call is still logged. */
  lemma MissingIframeLeaks()
    ensures var call := Message(Record(Some("log"), Some([StrArg("x")])));
            var leaked := Step(Fresh, Render(Some("g"), Some("1"), false));
            && leaked.listeners == 1 && !leaked.removable
            && Step(Step(leaked, Render(Some("g"), Some("2"), true)), call).logs == ["[LOG] x", "[LOG] x"]
            && Selector(Some("g"), None, "").None?
            && Step(Step(leaked, Render(Some("g"), None, true)), call).logs == ["[LOG] x"]
  {
    var data := Record(Some("log"), Some([StrArg("x")]));
    LogEntryOfX();
    var leaked := Step(Fresh, Render(Some("g"), Some("1"), false));
    assert leaked == LogState(Some("g"), Some("1"), [], 1, false);
    var both := Step(leaked, Render(Some("g"), Some("2"), true));
    assert both == LogState(Some("g"), Some("2"), [], 2, true);
    assert Repeat("[LOG] x", 2) == ["[LOG] x", "[LOG] x"];
    var orphan := Step(leaked, Render(Some("g"), None, true));
    assert orphan == LogState(Some("g"), None, [], 1, false);
    assert Repeat("[LOG] x", 1) == ["[LOG] x"];
  }

  /** `console.log("x")` is captured and logged as "[LOG] x". */
  lemma LogEntryOfX()
    ensures Captured(Record(Some("log"), Some([StrArg("x")])))
    ensures Entry("log", [StrArg("x")]) == "[LOG] x"
  {
    Prefixes();
    assert ArgTexts([StrArg("x")]) == ["x"];
  }

  /** No render changes the ids. */
  predicate SameIds(st: LogState, events: seq<HookEvent>)
  {
    forall k :: 0 <= k < |events| ==> events[k].Render? ==>
      events[k].gameId == st.gameId && events[k].iterationId == st.iterationId
  }

  /** While the ids stay the same and no listener has leaked, the log only
      grows, by appending, at most one entry per event. */
  lemma {:induction false} LogOnlyAppends(st: LogState, events: seq<HookEvent>)
    requires SameIds(st, events) && NoLeak(st)
    ensures var last := Run(st, events);
            && last.gameId == st.gameId && last.iterationId == st.iterationId
            && |st.logs| <= |last.logs| <= |st.logs| + |events|
            && last.logs[..|st.logs|] == st.logs
    decreases |events|
  {
    if |events| > 0 {
      var next := Step(st, events[0]);
      assert next.(logs := st.logs) == st;
      assert next.logs == st.logs || next.logs == st.logs + [next.logs[|next.logs| - 1]];
      assert SameIds(next, events[1..]) by {
        forall k | 0 <= k < |events[1..]| && events[1..][k].Render?
          ensures events[1..][k].gameId == next.gameId && events[1..][k].iterationId == next.iterationId
        {
          assert events[1..][k] == events[k + 1];
        }
      }
      LogOnlyAppends(next, events[1..]);
      var last := Run(next, events[1..]);
      assert last.logs[..|next.logs|] == next.logs;
      assert last.logs[..|st.logs|] == last.logs[..|next.logs|][..|st.logs|];
    }
  }

  /** The prefixes of the captured methods, and one formatted entry. */
  lemma Prefixes()
    ensures UpperAscii("log") == "LOG" && UpperAscii("warn") == "WARN" && UpperAscii("error") == "ERROR"
    ensures UpperAscii("info") == "INFO" && UpperAscii("debug") == "DEBUG"
    ensures Entry("warn", [StrArg("low"), ErrorArg("fuel")]) == "[WARN] low fuel"
  {
    assert ArgTexts([StrArg("low"), ErrorArg("fuel")]) == ["low", "fuel"];
    assert Join(["low", "fuel"], " ") == "low fuel" by {
      assert ["low", "fuel"][1..] == ["fuel"];
    }
  }

  // ---------------------------------------------------------------------
  // Script injection into srcDoc

  /** ASCII case-insensitive match of one character against a lower-case
      letter, as the `i` flag of a non-Unicode regular expression does. */
  predicate SameLetter(c: char, lower: char)
  {
    c == lower || c as int == lower as int - 32
  }

  /** `s` has `<body` (letters in any case) at index `p`. */
  predicate OpensBody(s: string, p: nat)
  {
    p + 5 <= |s| && s[p] == '<'
    && SameLetter(s[p + 1], 'b') && SameLetter(s[p + 2], 'o')
    && SameLetter(s[p + 3], 'd') && SameLetter(s[p + 4], 'y')
  }

  /** `/<body[^>]*>/i` matches at index `p`: `<body` followed somewhere by
      a `>`. */
  predicate TagAt(s: string, p: nat)
  {
    OpensBody(s, p) && '>' in s[p + 5..]
  }

  /** The match at `p` is `s[p..e]`: it runs to the first `>` after `<body`. */
  predicate TagSpan(s: string, p: nat, e: nat)
  {
    OpensBody(s, p) && p + 5 < e <= |s| && s[e - 1] == '>'
    && forall k :: p + 5 <= k < e - 1 ==> s[k] != '>'
  }

  /** The first index at or after `k` holding `c`. */
  function IndexOf(s: string, c: char, k: nat): (r: Option<nat>)
    requires k <= |s|
    ensures r.None? <==> c !in s[k..]
    ensures r.Some? ==> k <= r.value < |s| && s[r.value] == c
                        && forall j :: k <= j < r.value ==> s[j] != c
    decreases |s| - k
  {
    if k == |s| then None
    else if s[k] == c then Some(k)
    else
      assert s[k..] == [s[k]] + s[k + 1..];
      IndexOf(s, c, k + 1)
  }

  /** The leftmost match at or after `p`, as the span `(start, end)`. */
  function FindTagFrom(s: string, p: nat): (r: Option<(nat, nat)>)
    requires p <= |s|
    ensures r.None? ==> forall q :: p <= q < |s| ==> !TagAt(s, q)
    ensures r.Some? ==> && p <= r.value.0 && TagSpan(s, r.value.0, r.value.1)
                        && forall q :: p <= q < r.value.0 ==> !TagAt(s, q)
    decreases |s| - p
  {
    if p == |s| then None
    else if OpensBody(s, p) && IndexOf(s, '>', p + 5).Some? then
      Some((p, IndexOf(s, '>', p + 5).value + 1))
    else FindTagFrom(s, p + 1)
  }

  /** Where the script goes: right after the first `<body...>` tag, or at
      the end when there is none. */
  function InsertionPoint(s: string): (k: nat)
    ensures k <= |s|
    ensures (forall q :: 0 <= q < |s| ==> !TagAt(s, q)) ==> k == |s|
    ensures (exists q :: 0 <= q < |s| && TagAt(s, q)) ==>
      exists p :: 0 <= p < |s| && TagSpan(s, p, k) && forall q :: 0 <= q < p ==> !TagAt(s, q)
  {
    match FindTagFrom(s, 0)
    case None => |s|
    case Some(span) =>
      assert s[span.0 + 5..][span.1 - 1 - (span.0 + 5)] == '>';
      assert TagAt(s, span.0);
      span.1
  }

  /** `originalSrcDoc.replace(/<body[^>]*>/i, m => m + script)`, falling back
      to appending the script when the replacement changed nothing. The
      result is the original with the script inserted at the insertion
      point. */
  function Inject(srcDoc: string, script: string): (r: string)
    ensures r == srcDoc[..InsertionPoint(srcDoc)] + script + srcDoc[InsertionPoint(srcDoc)..]
  {
    var replaced :=
      match FindTagFrom(srcDoc, 0)
      case None => srcDoc
      case Some(span) => srcDoc[..span.1] + script + srcDoc[span.1..];
    if replaced == srcDoc then
      assert srcDoc[..InsertionPoint(srcDoc)] + srcDoc[InsertionPoint(srcDoc)..] == srcDoc;
      assert srcDoc[..|srcDoc|] == srcDoc;
      srcDoc + script
    else replaced
  }

  /** Cutting the script out of the injected document gives the original
      document back. */
  lemma RemovingScriptRestores(srcDoc: string, script: string)
    ensures var k := InsertionPoint(srcDoc);
            var r := Inject(srcDoc, script);
            && r[k..k + |script|] == script
            && r[..k] + r[k + |script|..] == srcDoc
  {
    var k := InsertionPoint(srcDoc);
    var r := Inject(srcDoc, script);
    assert r[..k] == srcDoc[..k];
    assert r[k + |script|..] == srcDoc[k..];
  }

  /** What one run of the listener effect does: whether it adds a message
      listener, the `srcDoc` it writes, if any, and whether it returns the
      cleanup that removes the listener again. */
  datatype Effect = Effect(listens: bool, srcDoc: Option<string>, cleanup: bool)

  /** The effect run for the current ids: with no selector nothing is
      installed; otherwise the message listener is installed, and if the
      iframe exists its `srcDoc` (an absent attribute reads as empty) is
      rewritten with the script injected and the cleanup is returned. When
      the iframe is missing the effect returns early without a cleanup, so
      the listener it added stays installed. */
  function SetUp(gameId: Option<string>, iterationId: Option<string>, elementId: string,
                 iframe: Option<Option<string>>, script: string): (r: Effect)
    ensures r.listens <==> Selector(gameId, iterationId, elementId).Some?
    ensures r.srcDoc.Some? <==> r.listens && iframe.Some?
    ensures r.srcDoc.Some? ==> r.srcDoc.value == Inject(iframe.value.GetOr(""), script)
    ensures r.cleanup <==> r.listens && iframe.Some?
    ensures r.listens && !r.cleanup ==> iframe.None?
  {
    if Selector(gameId, iterationId, elementId).None? then Effect(false, None, false)
    else if iframe.None? then Effect(true, None, false)
    else Effect(true, Some(Inject(iframe.value.GetOr(""), script)), true)
  }

  /** A document with an upper-case body tag gets the script right after
      that tag; one without gets it at the end. */
  lemma InjectExamples()
    ensures Inject("<BODY>x", "S") == "<BODY>Sx"
    ensures Inject("x", "S") == "xS"
  {
    var s := "<BODY>x";
    assert OpensBody(s, 0);
    assert IndexOf(s, '>', 5) == Some(5);
    assert FindTagFrom(s, 0) == Some((0, 6));
    assert !OpensBody("x", 0);
    assert FindTagFrom("x", 1) == None;
  }
}
