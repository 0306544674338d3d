/** The search box of the terminal UI. Every edit records its time and
    starts a fresh pending task for the new text, cancelling the previous
    one; a pending task that wakes after the quiet period searches for its
    text (or clears the results when the text is blank). Time is in integer
    milliseconds; each task is identified by the number it was started with. */
module TuiDebounce {

  import opened Wrappers
  import opened Strings

  /** The quiet period, 0.4 s. */
  const DebounceMs := 400
  /** How many results the UI asks for. */
  const SearchLimit := 7

  datatype Task = Task(id: nat, query: string)

  /** `_last_input_time` and `_pending_task`, plus the number the next task
      gets. */
  datatype Debouncer = Debouncer(lastInput: int, pending: Option<Task>, nextId: nat)

  /** What a step asks of the rest of the UI. */
  datatype Effect = NoEffect | ClearResults | Search(query: string, limit: nat)

  datatype Event = Changed(value: string, at: int) | Woke(task: nat, at: int)

  function At(e: Event): int {
    match e
    case Changed(_, t) => t
    case Woke(_, t) => t
  }

  /** `query.strip()` is empty. */
  predicate IsBlank(query: string) {
    |Strip(query)| == 0
  }

  /** The state after `__init__`: no input yet and nothing pending. */
  function Initial(): (s: Debouncer)
    ensures s.lastInput == 0 && s.pending.None?
  {
    Debouncer(0, None, 0)
  }

  /** `on_input_changed`: the edit time is recorded and exactly one pending
      task remains, carrying the new text; an earlier pending task is gone. */
  function OnInputChanged(s: Debouncer, value: string, now: int): (s': Debouncer)
    ensures s'.lastInput == now
    ensures s'.pending == Some(Task(s.nextId, value))
    ensures s'.nextId > s.nextId
  {
    Debouncer(now, Some(Task(s.nextId, value)), s.nextId + 1)
  }

  /** `_debounced_search` waking up: only the live pending task acts, and
      only if no edit came within the quiet period; a cancelled or finished
      task does nothing. */
  function OnWake(s: Debouncer, id: nat, now: int): (r: (Debouncer, Effect))
    ensures !(s.pending.Some? && s.pending.value.id == id) ==> r == (s, NoEffect)
    ensures s.pending.Some? && s.pending.value.id == id ==>
              r.0 == s.(pending := None)
    ensures r.1.Search? ==>
              && s.pending == Some(Task(id, r.1.query))
              && now - s.lastInput >= DebounceMs
              && !IsBlank(r.1.query)
              && r.1.limit == SearchLimit
    ensures r.1.ClearResults? ==>
              && s.pending.Some? && s.pending.value.id == id
              && now - s.lastInput >= DebounceMs
              && IsBlank(s.pending.value.query)
    ensures s.pending.Some? && s.pending.value.id == id && now - s.lastInput >= DebounceMs ==>
              r.1 != NoEffect
  {
    match s.pending
    case Some(t) =>
      if t.id != id then (s, NoEffect)
      else
        var effect :=
          if now - s.lastInput < DebounceMs then NoEffect
          else if IsBlank(t.query) then ClearResults
          else Search(t.query, SearchLimit);
        (s.(pending := None), effect)
    case None => (s, NoEffect)
  }

  /** After an edit, the wake-up of any earlier task is a no-op, while the
      new task, waking once the quiet period has passed, clears the results
      for blank text and otherwise searches for the text as typed. */
  lemma EditSupersedesPending(s: Debouncer, value: string, now: int, id: nat, later: int)
    ensures var s' := OnInputChanged(s, value, now);
            id != s.nextId ==> OnWake(s', id, later) == (s', NoEffect)
    ensures var s' := OnInputChanged(s, value, now);
            later - now >= DebounceMs ==>
              OnWake(s', s.nextId, later).1 ==
                (if IsBlank(value) then ClearResults else Search(value, SearchLimit))
    ensures var s' := OnInputChanged(s, value, now);
            later - now < DebounceMs ==> OnWake(s', s.nextId, later).1 == NoEffect
  {
  }

  function Step(s: Debouncer, e: Event): (Debouncer, Effect) {
    match e
    case Changed(v, t) => (OnInputChanged(s, v, t), NoEffect)
    case Woke(id, t) => OnWake(s, id, t)
  }

  /** The state after a sequence of events, starting from `Initial()`. */
  function After(events: seq<Event>): Debouncer
    decreases |events|
  {
    if |events| == 0 then Initial()
    else Step(After(events[..|events| - 1]), events[|events| - 1]).0
  }

  /** The effect of event `k` of a sequence. */
  function EffectAt(events: seq<Event>, k: nat): Effect
    requires k < |events|
  {
    Step(After(events[..k]), events[k]).1
  }

  /** The position of the last edit in `events`, if any. */
  function LastChange(events: seq<Event>): (c: Option<nat>)
    ensures c.Some? ==> c.value < |events| && events[c.value].Changed?
    ensures c.Some? ==> forall m :: c.value < m < |events| ==> !events[m].Changed?
    ensures c.None? ==> forall m :: 0 <= m < |events| ==> !events[m].Changed?
    decreases |events|
  {
    if |events| == 0 then None
    else if events[|events| - 1].Changed? then Some(|events| - 1)
    else LastChange(events[..|events| - 1])
  }

  /** What the state remembers agrees with the last edit: its time is the
      last-input time, and a pending task carries its text. */
  predicate Tracks(events: seq<Event>, s: Debouncer) {
    match LastChange(events)
    case None => s.lastInput == 0 && s.pending.None?
    case Some(c) =>
      && s.lastInput == events[c].at
      && (s.pending.Some? ==> s.pending.value.query == events[c].value)
  }

  lemma {:induction false} AfterTracks(events: seq<Event>)
    ensures Tracks(events, After(events))
    decreases |events|
  {
    if |events| > 0 {
      var prefix := events[..|events| - 1];
      AfterTracks(prefix);
      if !events[|events| - 1].Changed? {
        assert LastChange(events) == LastChange(prefix);
      }
    }
  }

  /** A search is always for the text of the most recent edit, and happens
      at least the quiet period after that edit. */
  lemma SearchIsForLastEdit(events: seq<Event>, k: nat)
    requires k < |events| && EffectAt(events, k).Search?
    ensures LastChange(events[..k]).Some?
    ensures var c := LastChange(events[..k]).value;
            && events[c].value == EffectAt(events, k).query
            && events[k].at - events[c].at >= DebounceMs
  {
    AfterTracks(events[..k]);
  }

  /** Coalescing: when an edit is followed less than the quiet period later
      by another edit, in a sequence whose times never go backwards, no
      search is ever made for the earlier edit. Searches after it wait for
      the later edit, and are for the last edit before them. */
  lemma BurstCoalesces(events: seq<Event>, i: nat, j: nat, k: nat)
    requires forall a, b :: 0 <= a < b < |events| ==> At(events[a]) <= At(events[b])
    requires i < j < |events| && events[i].Changed? && events[j].Changed?
    requires events[j].at - events[i].at < DebounceMs
    requires i < k < |events| && EffectAt(events, k).Search?
    ensures j < k
    ensures LastChange(events[..k]).Some? && j <= LastChange(events[..k]).value
  {
    SearchIsForLastEdit(events, k);
    var c := LastChange(events[..k]).value;
    assert events[..k][c] == events[c];
  }

  /** The scenario of three quick edits "j", "jo", "joh" 50 ms apart: the
      timers of the first two find themselves cancelled and only "joh" is
      searched. */
  lemma ThreeQuickEdits()
    ensures var events := [Changed("j", 0), Changed("jo", 50), Changed("joh", 100),
                           Woke(0, 400), Woke(1, 450), Woke(2, 500)];
            && EffectAt(events, 3) == NoEffect
            && EffectAt(events, 4) == NoEffect
            && EffectAt(events, 5) == Search("joh", SearchLimit)
  {
    var events := [Changed("j", 0), Changed("jo", 50), Changed("joh", 100),
                   Woke(0, 400), Woke(1, 450), Woke(2, 500)];
    assert events[..0] == [];
    assert events[..1] == events[..0] + [Changed("j", 0)];
    assert events[..2] == events[..1] + [Changed("jo", 50)];
    assert events[..3] == events[..2] + [Changed("joh", 100)];
    assert events[..4] == events[..3] + [Woke(0, 400)];
    assert events[..5] == events[..4] + [Woke(1, 450)];
    assert After(events[..1]) == Debouncer(0, Some(Task(0, "j")), 1);
    assert After(events[..2]) == Debouncer(50, Some(Task(1, "jo")), 2);
    var s3 := Debouncer(100, Some(Task(2, "joh")), 3);
    assert After(events[..3]) == s3;
    assert After(events[..4]) == s3;
    assert After(events[..5]) == s3;
    assert !IsBlank("joh") by { assert !IsSpace('j'); }
  }
}
