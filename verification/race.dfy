/** The race state machine of the typing game: a word list from the tokenizer,
    the index of the word being typed, the start and end timestamps (0 when
    unset) and the running flag. `Accept` consumes the text of the input field
    on every keystroke and returns the text left over. */
module RaceEngine {
  import opened Wrappers
  import opened Tokenizer

  /** A reading of the millisecond clock; real readings are positive. */
  type Timestamp = t: int | t > 0 witness 1

  /** Registered next-word callbacks are modelled by an identity each. */
  type CallbackId = nat

  /** One call of one next-word callback, with the word index passed to it. */
  datatype Notification = Notification(callback: CallbackId, wordIndex: nat)

  datatype Race = Race(
    words: seq<string>,
    wordIndex: nat,
    startTime: int,
    endTime: int,
    running: bool,
    callbacks: seq<CallbackId>)

  /** The outcome of one `Accept`: the new state, the text to put back in the
      input field, and the word indices handed to the next-word callbacks, one
      per word advance, in order. Each index goes to every registered callback
      in registration order; `Calls` spells those calls out. */
  datatype Accepted = Accepted(race: Race, residual: string, fired: seq<nat>)

  /** The state every reachable race keeps: the index never passes the end of
      the word list, a running race has no end time, and a race that is
      running or has an end time carries its start time. */
  predicate Valid(r: Race) {
    && r.wordIndex <= |r.words|
    && (r.running ==> r.endTime == 0)
    && (r.running || r.endTime != 0 ==> r.startTime > 0)
  }

  /** A race as the constructor leaves it: no words, nothing started. */
  function NewRace(): (r: Race)
    ensures Valid(r) && !r.running && !Completed(r)
    ensures CurrentWord(r) == None
    ensures r.callbacks == []
  {
    Race([], 0, 0, 0, false, [])
  }

  /** Pushing a callback onto the array the `nextWordCallbacks` getter
      exposes. */
  function RegisterCallback(r: Race, cb: CallbackId): (r': Race)
    ensures r'.callbacks == r.callbacks + [cb]
    ensures r'.(callbacks := r.callbacks) == r
  {
    r.(callbacks := r.callbacks + [cb])
  }

  /** Loads the words of a quote and rewinds to the first word. The running
      flag and both timestamps are left as they were. */
  function Prepare(r: Race, quote: string): (r': Race)
    ensures r'.words == GetWords(quote) && r'.wordIndex == 0
    ensures r'.running == r.running && r'.startTime == r.startTime && r'.endTime == r.endTime
    ensures r'.callbacks == r.callbacks
    ensures CurrentWord(r') == Some(GetWords(quote)[0])
    ensures Valid(r) ==> Valid(r')
  {
    r.(words := GetWords(quote), wordIndex := 0)
  }

  /** Starts the timer: the race is running, not completed, and valid as
      long as its index is. Words, index and callbacks stay. */
  function Begin(r: Race, now: Timestamp): (r': Race)
    ensures r'.running && !Completed(r') && r'.startTime == now
    ensures r.wordIndex <= |r.words| ==> Valid(r')
    ensures r'.words == r.words && r'.wordIndex == r.wordIndex && r'.callbacks == r.callbacks
  {
    r.(startTime := now, endTime := 0, running := true)
  }

  /** Stops the timer: the race is completed and no longer running, and its
      elapsed time runs from the old start to `now`. */
  function Complete(r: Race, now: Timestamp): (r': Race)
    ensures Completed(r') && !r'.running
    ensures ElapsedMillis(r') == now - r.startTime
    ensures r.wordIndex <= |r.words| && r.startTime > 0 ==> Valid(r')
    ensures r'.words == r.words && r'.wordIndex == r.wordIndex && r'.callbacks == r.callbacks
  {
    r.(endTime := now, running := false)
  }

  /** The state `Accept` works on: the race itself if it is running, else the
      race with timing begun at `now`. */
  function Started(r: Race, now: Timestamp): (r': Race)
    ensures r'.running && r'.endTime == (if r.running then r.endTime else 0)
    ensures r'.startTime == (if r.running then r.startTime else now)
    ensures r'.words == r.words && r'.wordIndex == r.wordIndex && r'.callbacks == r.callbacks
  {
    if !r.running then Begin(r, now) else r
  }

  /** The `completed` getter: an end time has been recorded. It is never
      true of a valid race that is running. */
  predicate Completed(r: Race): (b: bool)
    ensures Valid(r) && r.running ==> !b
  {
    r.endTime != 0
  }

  /** The 1-based number of the current word. */
  function WordNumber(r: Race): (n: int)
    ensures n >= 1
    ensures n <= |r.words| <==> CurrentWord(r).Some?
  {
    r.wordIndex + 1
  }

  /** The word at the current index, `None` past the end of the list. */
  function CurrentWord(r: Race): (w: Option<string>)
    ensures w.Some? <==> r.wordIndex < |r.words|
    ensures w.Some? ==> w.value == r.words[r.wordIndex]
  {
    if r.wordIndex < |r.words| then Some(r.words[r.wordIndex]) else None
  }

  /** The elapsed time in milliseconds, the numerator of the duration. While
      a valid race is running there is no end time yet, so it is negative. */
  function ElapsedMillis(r: Race): (e: int)
    ensures Valid(r) && r.running ==> e < 0
  {
    r.endTime - r.startTime
  }

  /** The position of the first `c` in `s`, or -1 when there is none (see
      `IndexOfFindsFirst`). */
  function IndexOf(s: string, c: char): (p: int)
    ensures -1 <= p < |s|
    decreases |s|
  {
    if s == "" then -1
    else if s[0] == c then 0
    else
      var p := IndexOf(s[1..], c);
      if p == -1 then -1 else p + 1
  }

  /** Every registered callback called once, in registration order, with
      `wordIndex`. */
  function Fire(cbs: seq<CallbackId>, wordIndex: nat): (ns: seq<Notification>)
    ensures |ns| == |cbs|
    ensures forall k :: 0 <= k < |cbs| ==> ns[k] == Notification(cbs[k], wordIndex)
  {
    seq(|cbs|, k requires 0 <= k < |cbs| => Notification(cbs[k], wordIndex))
  }

  /** The callback calls made for a trace of word indices: one round of
      `Fire` per index, in trace order. */
  function Calls(cbs: seq<CallbackId>, fired: seq<nat>): (ns: seq<Notification>)
    ensures |ns| == |fired| * |cbs|
    decreases |fired|
  {
    if fired == [] then [] else Fire(cbs, fired[0]) + Calls(cbs, fired[1..])
  }

  /** The indices `lo`, `lo + 1`, ..., `hi - 1`. */
  function Range(lo: nat, hi: nat): seq<nat>
    decreases hi - lo
  {
    if lo >= hi then [] else [lo] + Range(lo + 1, hi)
  }

  /** Which branch of `accept` a begun race takes on `text`: strip the
      current word and go on with the text after its space, complete the race,
      or stay and return the text. */
  datatype Move = Advance(rest: string) | Finish | Stay

  /** If the first space is at a positive index and the text before it is the
      current word, advance past that space. Otherwise, with no space at a
      positive index on the last word, typing exactly that word finishes the
      race. In every other case the race stays where it is. */
  function NextMove(r: Race, text: string): (m: Move)
    ensures m.Advance? ==> |m.rest| < |text|
  {
    var target := CurrentWord(r);
    var p := IndexOf(text, ' ');
    if p > 0 then
      if Some(text[..p]) == target then Advance(text[p + 1..]) else Stay
    else if r.wordIndex == |r.words| - 1 then
      if Some(text) == target then Finish else Stay
    else
      Stay
  }

  /** One keystroke's worth of input. Timing begins if the race is not
      running; then the race advances (handing the new index to the callbacks
      and accepting the rest of the text in turn), finishes, or stays, as
      `NextMove` decides. */
  function Accept(r: Race, text: string, now: Timestamp): (a: Accepted)
    ensures a.race.words == r.words && a.race.callbacks == r.callbacks
    ensures r.wordIndex <= a.race.wordIndex
    ensures r.wordIndex <= |r.words| ==> a.race.wordIndex <= |r.words|
    ensures a.race.startTime == (if r.running then r.startTime else now)
    decreases |text|
  {
    var r1 := Started(r, now);
    match NextMove(r1, text)
    case Advance(rest) =>
      var r2 := r1.(wordIndex := r1.wordIndex + 1);
      var a := Accept(r2, rest, now);
      Accepted(a.race, a.residual, [r2.wordIndex] + a.fired)
    case Finish =>
      Accepted(Complete(r1, now), "", [])
    case Stay =>
      Accepted(r1, text, [])
  }
}
