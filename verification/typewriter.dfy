/**
 The subtitle's typing effect. The subtitle's text is captured and cleared;
 from the page's load event on, each call of the typing step appends the
 next character of the captured text and schedules another call 50 ms later,
 until the whole text is back. The timer is left out: a run of the effect is
 the sequence of states the successive calls produce.
 */
module Typewriter {

  /** The captured text, the index of the next character, and the subtitle's current text. */
  datatype State = State(text: string, index: nat, shown: string)

  /** The state right after the subtitle is cleared. */
  function Cleared(text: string): State {
    State(text, 0, "")
  }

  /** A call will append a character and schedule the next call. */
  predicate Pending(s: State) {
    s.index < |s.text|
  }

  /** One call of the typing step. */
  function Tick(s: State): (t: State)
    ensures t.text == s.text
    ensures Pending(s) ==> t.index == s.index + 1 && t.shown == s.shown + [s.text[s.index]]
    ensures !Pending(s) ==> t == s
  {
    if Pending(s) then State(s.text, s.index + 1, s.shown + [s.text[s.index]]) else s
  }

  /** The subtitle shows exactly the first `index` characters, and the index is within the text. */
  predicate Valid(s: State) {
    s.index <= |s.text| && s.shown == s.text[..s.index]
  }

  lemma TickKeepsValid(s: State)
    requires Valid(s)
    ensures Valid(Tick(s))
  {
  }

  /** The state after `k` calls. */
  function Ticks(s: State, k: nat): State
    decreases k
  {
    if k == 0 then s else Ticks(Tick(s), k - 1)
  }

  function Min(a: int, b: int): int {
    if a <= b then a else b
  }

  /** After k calls the subtitle holds the first min(k, |text|) characters of the text. */
  lemma {:induction false} TicksFromCleared(text: string, k: nat)
    ensures Ticks(Cleared(text), k) == State(text, Min(k, |text|), text[..Min(k, |text|)])
  {
    TicksValid(Cleared(text), k);
    TicksIndex(Cleared(text), k);
  }

  lemma {:induction false} TicksValid(s: State, k: nat)
    requires Valid(s)
    ensures Valid(Ticks(s, k)) && Ticks(s, k).text == s.text
    decreases k
  {
    if k > 0 {
      TickKeepsValid(s);
      TicksValid(Tick(s), k - 1);
    }
  }

  lemma {:induction false} TicksIndex(s: State, k: nat)
    requires s.index <= |s.text|
    ensures Ticks(s, k).index == Min(s.index + k, |s.text|)
    decreases k
  {
    if k > 0 {
      TicksIndex(Tick(s), k - 1);
    }
  }

  /** Once the text is complete, further calls change nothing. */
  lemma {:induction false} TicksPastEnd(s: State, k: nat)
    requires !Pending(s)
    ensures Ticks(s, k) == s
    decreases k
  {
    if k > 0 {
      TicksPastEnd(Tick(s), k - 1);
    }
  }

  /** The chain of scheduled calls continues exactly while fewer than |text| characters have been typed. */
  lemma ChainLength(text: string, k: nat)
    ensures Pending(Ticks(Cleared(text), k)) <==> k < |text|
  {
    TicksFromCleared(text, k);
  }
}
