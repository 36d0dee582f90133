/** The shared table of phase handlers, in which the module moves itself to the end of the rewrite phase once. */
module PhaseTable {
  import opened Seqs

  /** A slot of the table; `next` is where the phase after this one starts. */
  datatype PhaseHandler = PhaseHandler(handler: nat, next: int)

  /** The rewrite phase occupies the slots from `lo` to before `hi`; `own` is the handler of this module. */
  datatype Phase = Phase(lo: nat, hi: nat, own: nat)

  // ---------- the module's handler ----------

  /** Slot `m` moves behind slot `last`. */
  function Rotated(t: seq<PhaseHandler>, m: nat, last: nat): (r: seq<PhaseHandler>)
    requires m <= last < |t|
    ensures |r| == |t|
    ensures forall k :: 0 <= k < |t| ==> r[k] == if k < m || k > last then t[k] else if k < last then t[k + 1] else t[m]
  {
    t[..m] + t[m + 1..last + 1] + [t[m]] + t[last + 1..]
  }

  /** The table, its flag and the slot of the request after a call, and whether the call ran the module's rules. */
  datatype Called = Called(table: seq<PhaseHandler>, postponed: bool, at: int, body: bool)

  function CallOwn(t: seq<PhaseHandler>, postponed: bool, at: nat): Called
    requires at < |t| && at < t[at].next <= |t|
  {
    if !postponed && at < t[at].next - 1 then Called(Rotated(t, at, t[at].next - 1), true, at - 1, false)
    else Called(t, true, at, true)
  }

  class Engine {
    const handlers: array<PhaseHandler>
    var postponed: bool

    constructor (handlers: array<PhaseHandler>)
      ensures this.handlers == handlers && !postponed
    {
      this.handlers, postponed := handlers, false;
    }

    /** The call at slot `at`. If `body`, the module's rules run next; otherwise the call declines. */
    method Handler(at: nat) returns (phaseHandler: int, body: bool)
      requires at < handlers.Length && at < handlers[at].next <= handlers.Length
      modifies this, handlers
      ensures Called(handlers[..], postponed, phaseHandler, body) == CallOwn(old(handlers[..]), old(postponed), at)
    {
      phaseHandler, body := at, true;
      if !postponed {
        postponed := true;
        var last := handlers[at].next - 1;
        if at < last {
          var tmp := handlers[at];
          forall k | at <= k < last {
            handlers[k] := handlers[k + 1];
          }
          handlers[last] := tmp;
          assert handlers[..] == Rotated(old(handlers[..]), at, last);
          phaseHandler, body := phaseHandler - 1, false;
        }
      }
    }
  }

  // ---------- requests in the phase ----------

  /** One pass of a request through the phase: the slot it is at, the handlers whose bodies it has run, and whether a
      handler ended it. */
  datatype Pass = Pass(at: int, ran: seq<nat>, over: bool)

  /** The table with its flag, and all passes so far. */
  datatype World = World(table: seq<PhaseHandler>, postponed: bool, passes: seq<Pass>)

  /** A request enters the phase; or the engine calls the next handler of pass `i`, which declines or ends the pass. */
  datatype Event = Enter | Call(i: nat, declines: bool)

  /** Every slot of the phase leads out of it, and no pass is before it. */
  ghost predicate Fits(phase: Phase, w: World) {
    && phase.lo <= phase.hi <= |w.table|
    && (forall k :: phase.lo <= k < phase.hi ==> w.table[k].next == phase.hi)
    && (forall i :: 0 <= i < |w.passes| ==> phase.lo <= w.passes[i].at)
  }

  /** The engine goes on to the next slot when a handler declines. */
  ghost function Step(phase: Phase, w: World, e: Event): (r: World)
    requires Fits(phase, w)
    ensures Fits(phase, r)
  {
    match e
    case Enter => w.(passes := w.passes + [Pass(phase.lo, [], false)])
    case Call(i, declines) =>
      if i >= |w.passes| || w.passes[i].over || w.passes[i].at >= phase.hi then w
      else
        var p := w.passes[i];
        var handler := w.table[p.at].handler;
        var called := if handler == phase.own then CallOwn(w.table, w.postponed, p.at)
            else Called(w.table, w.postponed, p.at, true);
        var p' := if !called.body then p.(at := called.at + 1)
                  else if declines then Pass(called.at + 1, p.ran + [handler], false)
                  else p.(ran := p.ran + [handler], over := true);
        World(called.table, called.postponed, w.passes[i := p'])
  }

  ghost function Run(phase: Phase, w: World, events: seq<Event>): (r: World)
    requires Fits(phase, w)
    ensures Fits(phase, r)
    decreases |events|
  {
    if events == [] then w else Run(phase, Step(phase, w, events[0]), events[1..])
  }

  function Handlers(t: seq<PhaseHandler>): (r: seq<nat>)
    ensures |r| == |t|
    ensures forall k :: 0 <= k < |t| ==> r[k] == t[k].handler
  {
    seq(|t|, k requires 0 <= k < |t| => t[k].handler)
  }

  /** The module's handler stands at slot `m`, and only there. */
  ghost predicate OwnAt(phase: Phase, t: seq<PhaseHandler>, m: nat) {
    && phase.lo <= m < phase.hi <= |t|
    && forall k :: phase.lo <= k < phase.hi ==> (t[k].handler == phase.own <==> k == m)
  }

  /** The other handlers of the phase in their order, then the module's. */
  ghost function Order(phase: Phase, t: seq<PhaseHandler>, m: nat): (r: seq<nat>)
    requires OwnAt(phase, t, m)
    ensures |r| == phase.hi - phase.lo
  {
    RemoveAt(Handlers(t[phase.lo..phase.hi]), m - phase.lo) + [phase.own]
  }

  /** How far a pass is along the order. */
  ghost predicate OnTrack(phase: Phase, order: seq<nat>, p: Pass) {
    && phase.lo <= p.at <= phase.hi && |order| == phase.hi - phase.lo && (p.over ==> p.at < phase.hi)
    && p.ran == order[..p.at - phase.lo + if p.over then 1 else 0]
  }

  /** Until the table is rearranged, no pass is beyond the module's slot. */
  ghost predicate Sound(phase: Phase, t: seq<PhaseHandler>, m: nat, w: World)
    requires OwnAt(phase, t, m)
  {
    && w.table == (if w.postponed then Rotated(t, m, phase.hi - 1) else t)
    && forall i :: 0 <= i < |w.passes| ==>
        OnTrack(phase, Order(phase, t, m), w.passes[i]) && (!w.postponed ==> w.passes[i].at <= m)
  }

  ghost predicate Follows(t: seq<PhaseHandler>, lo: nat, end: nat, order: seq<nat>) {
    lo <= end <= |t| && end - lo <= |order| && forall k :: lo <= k < end ==> t[k].handler == order[k - lo]
  }

  lemma {:induction false} OrderIsRotated(phase: Phase, t: seq<PhaseHandler>, m: nat)
    requires OwnAt(phase, t, m)
    ensures Follows(Rotated(t, m, phase.hi - 1), phase.lo, phase.hi, Order(phase, t, m))
    ensures Follows(t, phase.lo, m, Order(phase, t, m))
    ensures m == phase.hi - 1 ==> Rotated(t, m, phase.hi - 1) == t
  {
    var r, order := Rotated(t, m, phase.hi - 1), Order(phase, t, m);
    forall k | phase.lo <= k < phase.hi ensures r[k].handler == order[k - phase.lo] {
    }
  }

  lemma {:induction false} StepKeepsSound(phase: Phase, t: seq<PhaseHandler>, m: nat, w: World, e: Event)
    requires OwnAt(phase, t, m) && Fits(phase, w) && Sound(phase, t, m, w)
    ensures Sound(phase, t, m, Step(phase, w, e))
  {
    hide Order, Rotated;
    OrderIsRotated(phase, t, m);
  }

  lemma {:induction false} RunKeepsSound(phase: Phase, t: seq<PhaseHandler>, m: nat, w: World, events: seq<Event>)
    requires OwnAt(phase, t, m) && Fits(phase, w) && Sound(phase, t, m, w)
    ensures Sound(phase, t, m, Run(phase, w, events))
    decreases |events|
  {
    if events != [] {
      StepKeepsSound(phase, t, m, w, events[0]);
      RunKeepsSound(phase, t, m, Step(phase, w, events[0]), events[1..]);
    }
  }

  /** Whatever requests do, every completed pass has run each handler of the phase once, the module's last and the
      others in their order; a pass that was ended has run the first of them; and the slots outside the phase stay. */
  lemma {:induction false} EveryPassInOrder(phase: Phase, t: seq<PhaseHandler>, m: nat, events: seq<Event>, i: nat)
    requires OwnAt(phase, t, m) && Fits(phase, World(t, false, []))
    requires i < |Run(phase, World(t, false, []), events).passes|
    ensures var w := Run(phase, World(t, false, []), events);
      var p := w.passes[i];
      && (p.at >= phase.hi ==> p.ran == RemoveAt(Handlers(t[phase.lo..phase.hi]), m - phase.lo) + [phase.own])
      && (p.over ==> p.ran <= RemoveAt(Handlers(t[phase.lo..phase.hi]), m - phase.lo) + [phase.own])
  {
    RunKeepsSound(phase, t, m, World(t, false, []), events);
  }

  lemma {:induction false} OutsideUntouched(phase: Phase, t: seq<PhaseHandler>, m: nat, events: seq<Event>)
    requires OwnAt(phase, t, m) && Fits(phase, World(t, false, []))
    ensures var table := Run(phase, World(t, false, []), events).table;
      && |table| == |t| && table[..phase.lo] == t[..phase.lo] && table[phase.hi..] == t[phase.hi..]
      && multiset(table) == multiset(t)
  {
    RunKeepsSound(phase, t, m, World(t, false, []), events);
    RotatedKeeps(t, m, phase.hi - 1);
    var r := Rotated(t, m, phase.hi - 1);
    assert r[..phase.lo] == t[..phase.lo] && r[phase.hi..] == t[phase.hi..];
  }

  lemma {:induction false} RotatedKeeps(t: seq<PhaseHandler>, m: nat, last: nat)
    requires m <= last < |t|
    ensures multiset(Rotated(t, m, last)) == multiset(t)
  {
    assert t == t[..m] + [t[m]] + t[m + 1..last + 1] + t[last + 1..];
  }
}
