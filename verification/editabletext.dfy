/** The click-to-edit text of app/components/EditableText.tsx: a display
    mode showing the `value` prop and an editing mode with its own
    `editValue`, which is handed to `onSubmit` on leaving the editing mode
    only when it differs from `value`. */
module EditableText {
  import opened Outcomes

  /** The `value` prop and the component's two pieces of state. */
  datatype State = State(value: string, isEditing: bool, editValue: string)

  /** What can happen to the component. `Click` reaches the displayed text;
      `Type`, `Key` and `Blur` reach the input; `NewValue` is a re-render with
      a `value` prop. */
  datatype Event = Click | Type(text: string) | Key(key: string) | Blur | NewValue(value: string)

  /** The first render. */
  function Init(value: string): (s: State)
    ensures !s.isEditing && s.editValue == s.value == value
  {
    State(value, false, value)
  }

  /** `handleSubmit`: `onSubmit(editValue)` when it differs from `value`,
      then back to display mode. */
  function Submit(s: State): (r: (State, Option<string>))
    ensures r.1.Some? <==> s.editValue != s.value
    ensures r.1.Some? ==> r.1.value == s.editValue
    ensures !r.0.isEditing && r.0.value == s.value && r.0.editValue == s.editValue
  {
    var submitted := if s.editValue != s.value then Some(s.editValue) else None;
    (State(s.value, false, s.editValue), submitted)
  }

  /** One event: the new state and the value passed to `onSubmit`, if any.
      Events aimed at the element that is not rendered have no effect; the
      value-prop effect runs only when the prop actually changed. */
  function Step(s: State, e: Event): (r: (State, Option<string>))
    ensures r.1.Some? ==> s.isEditing && !r.0.isEditing && r.1.value != s.value
    ensures r.0.value == (if e.NewValue? then e.value else s.value)
  {
    match e
    case Click => if s.isEditing then (s, None) else (State(s.value, true, s.editValue), None)
    case Type(text) => if s.isEditing then (State(s.value, true, text), None) else (s, None)
    case Key(key) =>
      if !s.isEditing then (s, None)
      else if key == "Enter" then Submit(s)
      else if key == "Escape" then (State(s.value, false, s.value), None)
      else (s, None)
    case Blur => if s.isEditing then Submit(s) else (s, None)
    case NewValue(v) => if v != s.value then (State(v, s.isEditing, v), None) else (s, None)
  }

  /** Clicking the displayed text enters editing mode, keeping `editValue`. */
  lemma ClickEdits(s: State)
    requires !s.isEditing
    ensures Step(s, Click) == (State(s.value, true, s.editValue), None)
  {
  }

  /** Enter and blur both submit: while editing they have the same effect,
      which is `onSubmit(editValue)` exactly when it differs from `value`,
      and leaving editing mode. */
  lemma EnterIsBlur(s: State)
    requires s.isEditing
    ensures Step(s, Key("Enter")) == Step(s, Blur)
    ensures Step(s, Blur).1 == (if s.editValue != s.value then Some(s.editValue) else None)
    ensures !Step(s, Blur).0.isEditing
  {
  }

  /** Escape restores `editValue` to `value`, leaves editing mode and never
      submits. */
  lemma EscapeRestores(s: State)
    requires s.isEditing
    ensures Step(s, Key("Escape")) == (State(s.value, false, s.value), None)
  {
  }

  /** A new `value` prop resets `editValue` to it; typing replaces it. */
  lemma PropAndTyping(s: State, v: string, text: string)
    requires v != s.value
    ensures Step(s, NewValue(v)).0 == State(v, s.isEditing, v)
    ensures s.isEditing ==> Step(s, Type(text)).0 == State(s.value, true, text)
  {
  }

  /** The state after a sequence of events, and the values submitted along
      the way, in order. */
  function Run(s: State, events: seq<Event>): (State, seq<string>)
    decreases |events|
  {
    if |events| == 0 then (s, [])
    else
      var step := Step(s, events[0]);
      var rest := Run(step.0, events[1..]);
      (rest.0, Submitted(step.1) + rest.1)
  }

  /** The values one step hands to `onSubmit`: none or one. */
  function Submitted(submission: Option<string>): (values: seq<string>)
    ensures submission.None? ==> values == []
    ensures submission.Some? ==> values == [submission.value]
  {
    if submission.Some? then [submission.value] else []
  }

  /** Running two sequences of events one after the other is running their
      concatenation: the second starts from the state the first leaves, and
      the submissions follow each other. */
  lemma {:induction false} RunAppend(s: State, first: seq<Event>, second: seq<Event>)
    ensures var mid := Run(s, first);
            Run(s, first + second) == (Run(mid.0, second).0, mid.1 + Run(mid.0, second).1)
    decreases |first|
  {
    if |first| > 0 {
      var step := Step(s, first[0]);
      assert (first + second)[1..] == first[1..] + second;
      RunAppend(step.0, first[1..], second);
      var mid := Run(step.0, first[1..]);
      var last := Run(mid.0, second);
      assert Submitted(step.1) + (mid.1 + last.1) == (Submitted(step.1) + mid.1) + last.1;
    } else {
      assert first + second == second;
      assert [] + Run(s, second).1 == Run(s, second).1;
    }
  }

  /** Whatever happens, at most one submission is made per edit session:
      the number of submissions never exceeds the number of clicks. */
  lemma {:induction false} SubmissionsBoundedByClicks(s: State, events: seq<Event>)
    ensures |Run(s, events).1| <= Clicks(events) + (if s.isEditing then 1 else 0)
    decreases |events|
  {
    if |events| > 0 {
      SubmissionsBoundedByClicks(Step(s, events[0]).0, events[1..]);
    }
  }

  /** Number of `Click` events. */
  function Clicks(events: seq<Event>): nat
  {
    if |events| == 0 then 0 else (if events[0].Click? then 1 else 0) + Clicks(events[1..])
  }

  /** Editing a freshly shown text, typing and pressing Enter submits the
      typed text when it is new, and nothing when it is the old value;
      pressing Escape instead submits nothing and restores the old value. */
  lemma EditSession(value: string, text: string)
    ensures Run(Init(value), [Click, Type(text), Key("Enter")])
         == (State(value, false, text), if text != value then [text] else [])
    ensures Run(Init(value), [Click, Type(text), Key("Escape")]) == (Init(value), [])
  {
    var editing := Run(Init(value), [Click, Type(text)]);
    RunAppend(Init(value), [Click], [Type(text)]);
    assert editing == (State(value, true, text), []);
    var enter := Submitted(Step(editing.0, Key("Enter")).1);
    assert Run(editing.0, [Key("Enter")]) == (State(value, false, text), enter + []);
    assert enter + [] == enter && [] + enter == enter;
    RunAppend(Init(value), [Click, Type(text)], [Key("Enter")]);
    assert [Click, Type(text)] + [Key("Enter")] == [Click, Type(text), Key("Enter")];
    assert Run(editing.0, [Key("Escape")]) == (Init(value), []);
    RunAppend(Init(value), [Click, Type(text)], [Key("Escape")]);
    assert [Click, Type(text)] + [Key("Escape")] == [Click, Type(text), Key("Escape")];
  }
}
