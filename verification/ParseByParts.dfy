/** Parsing by parts: a producer hands over one part of a text at a time, a parse thread reads the
    parts as one stream.  They share a mutex and two condition variables; a run is an interleaving
    of their steps, where a sleeping thread may also wake without having been notified. */
module ParseByParts {
  import opened JsonText

  datatype Symbol = Letter(c: char) | Terminator

  /** The producer between calls, at the lock of ParsePart or of the destructor, holding it, asleep
      on finish_, joining the parse thread, and done. */
  datatype Producer = Outside | Wants | Inside | Asleep | Joining | Done

  datatype Call = Peek | Take | Complete

  /** The parse thread between calls to the stream, with what it last peeked, and in a call. */
  datatype Parser = Running | WantsFor(call: Call) | InsideFor(call: Call) | AsleepFor(call: Call) | Ended

  datatype Owner = Free | HeldByProducer | HeldByParser

  datatype State = State(
    producer: Producer,
    parser: Parser,
    owner: Owner,
    rest: seq<Symbol>,           // from src_ to end_
    completed: bool,
    peeked: Option<Symbol>,      // what the parser knows of the next symbol
    todo: seq<string>,           // parts not yet handed over
    given: seq<string>,          // history: parts set as the buffer
    closed: bool,                // history: the terminator has been set as the buffer
    taken: seq<Symbol>,          // history: what Take has returned; count_ is its length
    seen: seq<(nat, Symbol)>)    // history: what Peek and Take have returned, and at which count_

  function Letters(part: string): seq<Symbol> {
    seq(|part|, i requires 0 <= i < |part| => Letter(part[i]))
  }

  function Joined(parts: seq<string>): seq<Symbol> {
    if parts == [] then [] else Joined(parts[..|parts| - 1]) + Letters(parts[|parts| - 1])
  }

  /** The stream that the parts stand for. */
  function Stream(parts: seq<string>): seq<Symbol> {
    Joined(parts) + [Terminator]
  }

  predicate Init(s: State) {
    && s.producer.Outside? && s.parser.Running? && s.owner.Free? && s.rest == [] && !s.completed
    && s.peeked == None && s.given == [] && !s.closed && s.taken == [] && s.seen == []
  }

  // ---- the steps

  function WakeProducer(p: Producer): Producer { if p.Asleep? then Wants else p }

  function WakeParser(p: Parser): Parser { if p.AsleepFor? then WantsFor(p.call) else p }

  predicate CanProduce(s: State) {
    match s.producer
    case Outside => true
    case Wants => s.owner.Free?
    case Inside => true
    case Asleep => false
    case Joining => s.parser.Ended?
    case Done => false
  }

  /** A step of ParsePart, or of the destructor once there are no more parts. */
  function Produce(s: State): State
    requires CanProduce(s)
  {
    match s.producer
    case Outside => s.(producer := Wants)
    case Wants => s.(producer := Inside, owner := HeldByProducer)
    case Inside =>
      if s.rest != [] && !s.completed then s.(producer := Asleep, owner := Free)
      else if s.todo == [] then
        s.(rest := [Terminator], closed := true, parser := WakeParser(s.parser), producer := Joining, owner := Free)
      else if s.completed then s.(todo := s.todo[1..], producer := Outside, owner := Free)
      else
        s.(rest := Letters(s.todo[0]), given := s.given + [s.todo[0]], todo := s.todo[1..],
           parser := WakeParser(s.parser), producer := Outside, owner := Free)
    case Joining => s.(producer := Done)
  }

  /** The parser peeks before it takes, and does not take the terminator. */
  predicate CanParse(s: State, next: Call) {
    match s.parser
    case Running => next.Take? ==> s.peeked.Some? && s.peeked.value.Letter?
    case WantsFor(_) => s.owner.Free?
    case InsideFor(_) => true
    case AsleepFor(_) => false
    case Ended => false
  }

  /** A step of the parse thread.  Between calls it chooses the next one. */
  function Parse(s: State, next: Call): State
    requires CanParse(s, next)
  {
    match s.parser
    case Running => s.(parser := WantsFor(next))
    case WantsFor(call) => s.(parser := InsideFor(call), owner := HeldByParser)
    case InsideFor(call) =>
      if call.Complete? then
        s.(completed := true, producer := WakeProducer(s.producer), parser := Ended, owner := Free)
      else if s.rest == [] then s.(parser := AsleepFor(call), owner := Free)
      else
        var t := s.(seen := s.seen + [(|s.taken|, s.rest[0])], parser := Running, owner := Free);
        if call.Peek? then t.(peeked := Some(s.rest[0]))
        else
          t.(taken := s.taken + [s.rest[0]], rest := s.rest[1..], peeked := None,
             producer := if s.rest[1..] == [] then WakeProducer(s.producer) else s.producer)
  }

  predicate Step(s: State, t: State) {
    || (CanProduce(s) && t == Produce(s))
    || (exists next :: CanParse(s, next) && t == Parse(s, next))
  }

  /** A sleeping thread may wake at any time. */
  predicate SpuriousStep(s: State, t: State) {
    t == s.(producer := WakeProducer(s.producer)) || t == s.(parser := WakeParser(s.parser))
  }

  predicate Run(run: seq<State>) {
    && |run| > 0 && Init(run[0])
    && forall k :: 0 < k < |run| ==> Step(run[k - 1], run[k]) || SpuriousStep(run[k - 1], run[k])
  }

  // ---- what every step keeps

  predicate Excludes(s: State) {
    && (s.owner.HeldByProducer? <==> s.producer.Inside?)
    && (s.owner.HeldByParser? <==> s.parser.InsideFor?)
  }

  /** A thread that sleeps has something to wait for that the other thread will tell it. */
  predicate SleepsForReason(s: State) {
    && (s.producer.Asleep? ==> s.rest != [] && !s.completed)
    && (s.parser.AsleepFor? ==> s.rest == [] && !s.parser.call.Complete?)
  }

  /** What has been handed over so far. */
  function Sofar(s: State): seq<Symbol> {
    if s.closed then Stream(s.given) else Joined(s.given)
  }

  predicate Prefix<T(==)>(a: seq<T>, b: seq<T>) {
    |a| <= |b| && a == b[..|a|]
  }

  predicate Streams(s: State, parts: seq<string>) {
    && (!s.completed ==> s.taken + s.rest == Sofar(s) && s.given + s.todo == parts)
    && (s.closed ==> s.todo == [])
    && (s.closed && !s.completed ==> s.rest == [Terminator])
    && (s.closed <==> s.producer.Joining? || s.producer.Done?)
    && Prefix(s.taken, Joined(parts))
    && forall k :: 0 <= k < |s.seen| ==> s.seen[k].0 < |Stream(parts)| && s.seen[k].1 == Stream(parts)[s.seen[k].0]
  }

  predicate Knows(s: State) {
    && (s.completed <==> s.parser.Ended?)
    && (s.peeked.Some? && !s.completed ==> s.rest != [] && s.rest[0] == s.peeked.value)
    && ((s.parser.WantsFor? || s.parser.InsideFor? || s.parser.AsleepFor?) && s.parser.call.Take? ==>
          s.peeked.Some? && s.peeked.value.Letter?)
    && (s.producer.Done? ==> s.parser.Ended?)
  }

  predicate Inv(s: State, parts: seq<string>) {
    Excludes(s) && SleepsForReason(s) && Streams(s, parts) && Knows(s)
  }

  lemma {:induction false} JoinedAppend(a: seq<string>, b: seq<string>)
    ensures Joined(a + b) == Joined(a) + Joined(b)
  {
    if b == [] {
      assert a + b == a;
    } else {
      var front := b[..|b| - 1];
      var last := Letters(b[|b| - 1]);
      hide Letters;
      assert (a + b)[..|a + b| - 1] == a + front;
      JoinedAppend(a, front);
      ConcatAssociative(Joined(a), Joined(front), last);
    }
  }

  /** Until parsing is completed, what has been handed over is a prefix of the stream. */
  lemma SofarIsPrefix(s: State, parts: seq<string>)
    requires Streams(s, parts) && !s.completed
    ensures Prefix(Sofar(s), Stream(parts)) && (!s.closed ==> Prefix(Sofar(s), Joined(parts)))
  {
    JoinedAppend(s.given, s.todo);
    if s.closed { assert s.given == parts; }
  }

  lemma ProduceKeeps(s: State, parts: seq<string>)
    requires Inv(s, parts) && CanProduce(s)
    ensures Inv(Produce(s), parts)
  {
    hide Joined, Prefix;
    if s.producer.Inside? && s.rest == [] && s.todo != [] && !s.completed {
      JoinedAppend(s.given, [s.todo[0]]);
      JoinedOne(s.todo[0]);
      assert s.todo == [s.todo[0]] + s.todo[1..];
    }
  }

  lemma JoinedOne(part: string)
    ensures Joined([part]) == Letters(part)
  {
    assert [part][..0] == [];
  }

  lemma ParseKeeps(s: State, next: Call, parts: seq<string>)
    requires Inv(s, parts) && CanParse(s, next)
    ensures Inv(Parse(s, next), parts)
  {
    hide Joined;
    if s.parser.InsideFor? && s.rest != [] && !s.parser.call.Complete? {
      SofarIsPrefix(s, parts);
      assert (s.taken + s.rest)[|s.taken|] == s.rest[0];
      if s.parser.call.Take? { TakeKeeps(s, parts); }
    }
  }

  lemma TakeKeeps(s: State, parts: seq<string>)
    requires Inv(s, parts) && s.parser == InsideFor(Take) && s.rest != []
    ensures !s.closed && (s.taken + [s.rest[0]]) + s.rest[1..] == s.taken + s.rest
    ensures Prefix(s.taken + [s.rest[0]], Joined(parts))
  {
    hide Joined;
    SofarIsPrefix(s, parts);
    assert s.rest == [s.rest[0]] + s.rest[1..];
    assert s.taken + [s.rest[0]] == (s.taken + s.rest)[..|s.taken| + 1];
  }

  /** In every state of every run: the mutex excludes; what has been taken is a prefix of the parts
      joined in order; everything ever peeked or taken is the symbol that the joined stream has
      there; and a sleeping thread still has a reason to sleep. */
  lemma {:induction false} RunKeeps(run: seq<State>, k: nat)
    requires Run(run) && k < |run|
    ensures Inv(run[k], run[0].todo)
  {
    hide Joined, Produce, Parse;
    if k == 0 {
      InitHolds(run[0]);
    } else {
      var s, t, parts := run[k - 1], run[k], run[0].todo;
      RunKeeps(run, k - 1);
      if CanProduce(s) && t == Produce(s) {
        ProduceKeeps(s, parts);
      } else if next :| CanParse(s, next) && t == Parse(s, next) {
        ParseKeeps(s, next, parts);
      } else {
        assert SpuriousStep(s, t);
      }
    }
  }

  lemma InitHolds(s: State)
    requires Init(s)
    ensures Inv(s, s.todo)
  {
  }

  /** The two threads are never asleep at the same time. */
  lemma NeverBothAsleep(run: seq<State>, k: nat)
    requires Run(run) && k < |run|
    ensures !(run[k].producer.Asleep? && run[k].parser.AsleepFor?)
  {
    RunKeeps(run, k);
  }

  /** The buffer is replaced only when every part before has been taken in full, unless parsing
      has completed. */
  lemma PartsAreUsedUp(run: seq<State>, k: nat)
    requires Run(run) && 0 < k < |run|
    requires run[k].given != run[k - 1].given || run[k].closed != run[k - 1].closed
    ensures run[k - 1].completed || (run[k - 1].rest == [] && run[k - 1].taken == Joined(run[k - 1].given))
  {
    hide Joined;
    RunKeeps(run, k - 1);
  }

  /** The parser sees the terminator only after it has taken every part in full. */
  lemma TerminatorIsLast(run: seq<State>, k: nat)
    requires Run(run) && k < |run| && run[k].peeked == Some(Terminator) && !run[k].completed
    ensures run[k].taken == Joined(run[0].todo)
  {
    hide Joined;
    var s, parts := run[k], run[0].todo;
    RunKeeps(run, k);
    SofarIsPrefix(s, parts);
    if |s.taken| < |Joined(parts)| {
      assert Stream(parts)[|s.taken|] == (s.taken + s.rest)[|s.taken|] == Terminator;
      JoinedIsLetters(parts, |s.taken|);
    }
  }

  lemma {:induction false} JoinedIsLetters(parts: seq<string>, k: nat)
    requires k < |Joined(parts)|
    ensures Joined(parts)[k].Letter?
  {
    var front := parts[..|parts| - 1];
    if k < |Joined(front)| { JoinedIsLetters(front, k); }
  }

  function Concat(parts: seq<string>): string {
    if parts == [] then "" else parts[0] + Concat(parts[1..])
  }

  /** Symbol k of the parts is character k of the parts joined in order. */
  lemma {:induction false} JoinedAt(parts: seq<string>)
    ensures |Joined(parts)| == |Concat(parts)|
    ensures forall k :: 0 <= k < |Joined(parts)| ==> Joined(parts)[k] == Letter(Concat(parts)[k])
  {
    if parts != [] {
      var rest := parts[1..];
      assert [parts[0]] + rest == parts && [parts[0]][..0] == [];
      JoinedAppend([parts[0]], rest);
      assert Joined([parts[0]]) == [] + Letters(parts[0]) == Letters(parts[0]);
      JoinedAt(rest);
    }
  }

  /** No thread can take a step of its own. */
  ghost predicate Stuck(s: State) {
    !CanProduce(s) && forall next :: !CanParse(s, next)
  }

  /** Without spurious wakeups some thread can always step, until both have finished. */
  lemma StuckIsDone(run: seq<State>)
    requires Run(run) && Stuck(run[|run| - 1])
    ensures run[|run| - 1].producer.Done? && run[|run| - 1].parser.Ended?
  {
    RunKeeps(run, |run| - 1);
    assert !CanParse(run[|run| - 1], Complete);
  }
}
