/** BM25 readers: reloading against the generation counter. */
module Bm25 {
  import opened Base

  // ----- The reload protocol ------------------------------------------------

  /** A shared reader: how many index commits its snapshot holds, and the generation it last reloaded at. */
  datatype Handle = Handle(snapshot: nat, last: nat)

  /** Where a thread stands inside a query. */
  datatype Pc =
    | Idle
    | Asked(current: nat)
    | Reloading(current: nat, seen: nat)
    | Swapping(current: nat, seen: nat)
    | Serving(current: nat)

  datatype Thread = Thread(handle: nat, pc: Pc)

  /** `published[g]` is the number of commits there were when generation `g` was published. */
  datatype System = System(commits: nat, generation: nat, published: seq<nat>,
                           handles: map<nat, Handle>, threads: map<nat, Thread>)

  /** `maybe_reload` up to the decision. */
  function Load(h: Handle, current: nat): Pc {
    if current > h.last then Reloading(current, h.last) else Serving(current)
  }

  /** The newest committed snapshot, in one step. */
  function Reload(h: Handle, commits: nat): Handle {
    h.(snapshot := commits)
  }

  function CompareExchange(h: Handle, seen: nat, current: nat): Handle {
    if h.last == seen then h.(last := current) else h
  }

  datatype Event =
    | Commit
    | Bump
    | Open(handle: nat)
    | Ask(thread: nat, on: nat)
    | Advance(thread: nat)

  function Bumped(s: System): System {
    if s.generation < U64_MAX
    then s.(generation := s.generation + 1, published := s.published + [s.commits])
    else s
  }

  ghost predicate Next(s: System, e: Event, s': System) {
    match e
    case Commit => s' == s.(commits := s.commits + 1)
    case Bump => s' == Bumped(s)
    case Open(h) => h !in s.handles && s' == s.(handles := s.handles[h := Handle(s.commits, 0)])
    case Ask(t, h) =>
      && h in s.handles && (t in s.threads ==> s.threads[t].pc.Idle? || s.threads[t].pc.Serving?)
      && s' == s.(threads := s.threads[t := Thread(h, Asked(s.generation))])
    case Advance(t) => t in s.threads && s.threads[t].handle in s.handles && Advanced(s, t, s.threads[t].handle, s')
  }

  ghost predicate Advanced(s: System, t: nat, h: nat, s': System)
    requires t in s.threads && h in s.handles
  {
    var handle := s.handles[h];
    match s.threads[t].pc
    case Idle => false
    case Serving(_) => s' == s.(threads := s.threads[t := Thread(h, Idle)])
    case Asked(current) => s' == s.(threads := s.threads[t := Thread(h, Load(handle, current))])
    case Reloading(current, seen) =>
      s' == s.(handles := s.handles[h := Reload(handle, s.commits)],
               threads := s.threads[t := Thread(h, Swapping(current, seen))])
    case Swapping(current, seen) =>
      s' == s.(handles := s.handles[h := CompareExchange(handle, seen, current)],
               threads := s.threads[t := Thread(h, Serving(current))])
  }

  ghost predicate Start(s: System) {
    s.generation == 0 && s.published == [s.commits] && s.handles == map[] && s.threads == map[]
  }

  /** The snapshot holds everything committed before `g` was published. */
  ghost predicate Holds(s: System, h: Handle, g: nat) {
    g < |s.published| && s.published[g] <= h.snapshot
  }

  ghost predicate PcOk(s: System, t: Thread) {
    && t.handle in s.handles
    && match t.pc
       case Idle => true
       case Asked(current) => current <= s.generation
       case Reloading(current, seen) => current <= s.generation && seen < current && seen <= s.handles[t.handle].last
       case Swapping(current, seen) => seen < current && seen <= s.handles[t.handle].last
         && Holds(s, s.handles[t.handle], current)
       case Serving(current) => Holds(s, s.handles[t.handle], current)
  }

  ghost predicate HistoryOk(s: System) {
    && s.generation <= U64_MAX && |s.published| == s.generation + 1
    && (forall i, j :: 0 <= i <= j < |s.published| ==> s.published[i] <= s.published[j])
    && s.published[s.generation] <= s.commits
  }

  ghost predicate Inv(s: System) {
    && HistoryOk(s)
    && (forall h :: h in s.handles ==> s.handles[h].snapshot <= s.commits)
    && (forall h :: h in s.handles ==> Holds(s, s.handles[h], s.handles[h].last))
    && (forall t :: t in s.threads ==> PcOk(s, s.threads[t]))
  }

  lemma HistoryStaysOk(s: System, e: Event, s': System)
    requires HistoryOk(s) && Next(s, e, s')
    ensures HistoryOk(s') && s.published <= s'.published && s.generation <= s'.generation && s.commits <= s'.commits
  {
  }

  lemma ReaderStaysOk(s: System, e: Event, s': System, h: nat)
    requires Inv(s) && Next(s, e, s') && h in s'.handles
    ensures h in s.handles ==>
      s'.handles[h].last >= s.handles[h].last && s'.handles[h].snapshot >= s.handles[h].snapshot
    ensures s'.handles[h].snapshot <= s'.commits && Holds(s', s'.handles[h], s'.handles[h].last)
  {
    hide Load, Inv;
    InvHere(s, h, 0);
    HistoryStaysOk(s, e, s');
    if e.Advance? {
      var t := e.thread;
      InvHere(s, s.threads[t].handle, t);
    }
  }

  /** The parts of the invariant for one reader and one thread. */
  lemma InvHere(s: System, h: nat, t: nat)
    requires Inv(s)
    ensures HistoryOk(s)
    ensures h in s.handles ==> s.handles[h].snapshot <= s.commits && Holds(s, s.handles[h], s.handles[h].last)
    ensures t in s.threads ==> PcOk(s, s.threads[t])
  {
  }

  lemma NoReaderLost(s: System, e: Event, s': System)
    requires Next(s, e, s')
    ensures forall h :: h in s.handles ==> h in s'.handles
  {
  }

  lemma ThreadStaysOk(s: System, e: Event, s': System, t: nat)
    requires Inv(s) && Next(s, e, s') && t in s'.threads
    ensures PcOk(s', s'.threads[t])
  {
    hide Inv;
    var h := s'.threads[t].handle;
    InvHere(s, h, t);
    HistoryStaysOk(s, e, s');
    NoReaderLost(s, e, s');
    ReaderStaysOk(s, e, s', h);
    if t in s.threads && s'.threads[t] == s.threads[t] {
    }
  }

  /**
    Every step keeps the protocol's invariant, and no reader's generation or snapshot ever goes back:
    a compare-exchange only ever replaces the generation seen by a larger one.
   */
  lemma NextKeepsInv(s: System, e: Event, s': System)
    requires Inv(s) && Next(s, e, s')
    ensures Inv(s')
    ensures forall h :: h in s.handles ==>
      h in s'.handles && s'.handles[h].last >= s.handles[h].last && s'.handles[h].snapshot >= s.handles[h].snapshot
    ensures s.published <= s'.published
  {
    hide HistoryOk, Next, Holds, PcOk;
    HistoryStaysOk(s, e, s');
    NoReaderLost(s, e, s');
    forall h | h in s'.handles
      ensures h in s.handles ==>
        s'.handles[h].last >= s.handles[h].last && s'.handles[h].snapshot >= s.handles[h].snapshot
      ensures s'.handles[h].snapshot <= s'.commits && Holds(s', s'.handles[h], s'.handles[h].last)
    {
      ReaderStaysOk(s, e, s', h);
    }
    forall t | t in s'.threads ensures PcOk(s', s'.threads[t]) {
      ThreadStaysOk(s, e, s', t);
    }
  }

  ghost predicate Run(ss: seq<System>, es: seq<Event>) {
    && |ss| == |es| + 1 && Start(ss[0])
    && forall i :: 0 <= i < |es| ==> Next(ss[i], es[i], ss[i + 1])
  }

  /** In every interleaving: a reader's last reloaded generation is one whose commits its snapshot holds. */
  lemma {:induction false} RunKeepsInv(ss: seq<System>, es: seq<Event>, i: nat)
    requires Run(ss, es) && i < |ss|
    ensures Inv(ss[i])
    decreases i
  {
    if i > 0 {
      RunKeepsInv(ss, es, i - 1);
      NextKeepsInv(ss[i - 1], es[i - 1], ss[i]);
    }
  }

  lemma {:induction false} NeverBack(ss: seq<System>, es: seq<Event>, i: nat, j: nat, h: nat)
    requires Run(ss, es) && i <= j < |ss| && h in ss[i].handles
    ensures h in ss[j].handles
    ensures ss[j].handles[h].last >= ss[i].handles[h].last && ss[j].handles[h].snapshot >= ss[i].handles[h].snapshot
    ensures ss[i].published <= ss[j].published
    decreases j
  {
    if i < j {
      NeverBack(ss, es, i, j - 1, h);
      RunKeepsInv(ss, es, j - 1);
      NextKeepsInv(ss[j - 1], es[j - 1], ss[j]);
    }
  }

  /** Thread `t` is inside the query it asked with `current` on reader `h`, or has come to its end. */
  ghost predicate OnQuery(s: System, t: nat, h: nat, current: nat) {
    && t in s.threads && s.threads[t].handle == h
    && (s.threads[t].pc.Idle? || s.threads[t].pc.current == current)
  }

  lemma {:induction false} QueryGoesOn(ss: seq<System>, es: seq<Event>, i: nat, j: nat, t: nat, h: nat)
    requires Run(ss, es) && i < j < |ss| && es[i] == Ask(t, h)
    requires forall k :: i < k < j ==> !(es[k].Ask? && es[k].thread == t)
    ensures OnQuery(ss[j], t, h, ss[i].generation)
    decreases j
  {
    assert Next(ss[j - 1], es[j - 1], ss[j]);
    if i + 1 < j {
      QueryGoesOn(ss, es, i, j - 1, t, h);
    }
  }

  /**
    A query served on a reader sees everything that was committed before the generation it asked with
    was published, whatever the writer and the other threads do meanwhile.
   */
  lemma AnswerCoversGeneration(ss: seq<System>, es: seq<Event>, i: nat, j: nat, t: nat, h: nat)
    requires Run(ss, es) && i < j < |ss| && es[i] == Ask(t, h)
    requires forall k :: i < k < j ==> !(es[k].Ask? && es[k].thread == t)
    requires t in ss[j].threads && ss[j].threads[t].pc.Serving?
    ensures h in ss[j].handles && ss[i].generation < |ss[i].published|
    ensures ss[i].published[ss[i].generation] <= ss[j].handles[h].snapshot
  {
    RunKeepsInv(ss, es, i);
    RunKeepsInv(ss, es, j);
    QueryGoesOn(ss, es, i, j, t, h);
    assert Next(ss[i], es[i], ss[i + 1]);
    NeverBack(ss, es, i, j, h);
    assert PcOk(ss[j], ss[j].threads[t]);
  }

  /** After a bump the next query reloads, except on a reader already at the largest counter value. */
  lemma BumpForcesReloadExactly(s: System, h: nat)
    requires Inv(s) && h in s.handles
    ensures Load(s.handles[h], Bumped(s).generation).Reloading?
       <==> !(s.generation == U64_MAX && s.handles[h].last == U64_MAX)
  {
  }

  /** The reader object; without other threads the three steps run back to back. */
  class BmReader {
    var snapshot: nat
    var last: nat

    ghost function Now(): Handle
      reads this
    {
      Handle(snapshot, last)
    }

    constructor (commits: nat)
      ensures Now() == Handle(commits, 0)
    {
      snapshot, last := commits, 0;
    }

    method MaybeReload(current: nat, commits: nat)
      modifies this
      ensures Load(old(Now()), current).Serving? ==> Now() == old(Now())
      ensures Load(old(Now()), current).Reloading? ==> Now() == Handle(commits, current)
      ensures last >= current && last >= old(last)
    {
      var seen := last;
      if current > seen {
        snapshot := commits;
        if last == seen {
          last := current;
        }
      }
    }
  }
}
