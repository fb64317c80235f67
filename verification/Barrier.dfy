/**
 * Startup and shutdown barriers of N cores (MultiCoreSync.h). Every load and store of a
 * core's state is a step of its own, and the cores' steps interleave arbitrarily.
 */
module Barrier {
  import opened Modular

  const MILLIS: nat := 0x1_0000_0000

  datatype CoreState = Unborn | Init | Ready | Error | Shutdown

  /** Where a core is in its program; `polls` counts the delays taken, `since` the history at entry. */
  datatype Pc =
    | Free
    | Checking(i: nat, polls: nat, since: nat)      // anyError, about to load core i
    | Matching(i: nat, polls: nat, since: nat)      // allInState(READY)
    | Failing(since: nat)                           // about to store ERROR
    | Terminating(i: nat, polls: nat, since: nat)   // allTerminated
    | Started(ok: bool, since: nat)                 // startupBarrier returned
    | Stopped(ok: bool, since: nat)                 // shutdownBarrier returned

  /** What a core does next when it is in no barrier. */
  datatype Act = SetInit | SetError | StartupBarrier | ShutdownBarrier

  datatype Move = Move(core: nat, act: Act)

  datatype Config = Config(timeout: nat, poll: nat)

  datatype System = System(
    states: seq<CoreState>, pcs: seq<Pc>,
    entered: seq<bool>,              // which cores have entered the startup barrier
    past: seq<seq<CoreState>>)       // every state vector so far, the present one last

  /** The 32-bit elapsed counter after `polls` delays. */
  function Elapsed(polls: nat, cfg: Config): nat {
    polls * cfg.poll % MILLIS
  }

  function StartupHead(polls: nat, since: nat, cfg: Config): Pc {
    if Elapsed(polls, cfg) < cfg.timeout then Checking(0, polls, since) else Failing(since)
  }

  function ShutdownHead(polls: nat, since: nat, cfg: Config): Pc {
    if Elapsed(polls, cfg) < cfg.timeout then Terminating(0, polls, since) else Stopped(false, since)
  }

  predicate Down(st: CoreState) {
    st == Shutdown || st == Error
  }

  /** Core `c` moves to `pc`, having stored `st` if it differs from what was there. */
  function Go(s: System, c: nat, st: CoreState, pc: Pc): System
    requires c < |s.states| == |s.pcs|
  {
    var states := s.states[c := st];
    s.(states := states, pcs := s.pcs[c := pc], past := s.past + [states])
  }

  function Step(s: System, m: Move, cfg: Config): System
    requires |s.states| == |s.pcs| == |s.entered|
  {
    if m.core >= |s.states| then s
    else
      var c, n, own := m.core, |s.states|, s.states[m.core];
      match s.pcs[c]
      case Checking(i, k, since) =>
        Go(s, c, own, if i >= n || s.states[i] == Error then Failing(since)
                      else if i + 1 == n then Matching(0, k, since) else Checking(i + 1, k, since))
      case Matching(i, k, since) =>
        Go(s, c, own, if i >= n || s.states[i] != Ready then StartupHead(k + 1, since, cfg)
                      else if i + 1 == n then Started(true, since) else Matching(i + 1, k, since))
      case Failing(since) => Go(s, c, Error, Started(false, since))
      case Terminating(i, k, since) =>
        Go(s, c, own, if i >= n || !Down(s.states[i]) then ShutdownHead(k + 1, since, cfg)
                      else if i + 1 == n then Stopped(true, since) else Terminating(i + 1, k, since))
      case _ =>
        match m.act
        case SetInit => Go(s, c, Init, Free)
        case SetError => Go(s, c, Error, Free)
        case StartupBarrier => Go(s, c, Ready, StartupHead(0, |s.past|, cfg)).(entered := s.entered[c := true])
        case ShutdownBarrier => Go(s, c, Shutdown, ShutdownHead(0, |s.past|, cfg))
  }

  ghost predicate Shape(s: System) {
    && |s.states| == |s.pcs| == |s.entered| > 0
    && s.past != [] && s.past[|s.past| - 1] == s.states
    && forall k :: 0 <= k < |s.past| ==> |s.past[k]| == |s.states|
  }

  function RunAll(s: System, moves: seq<Move>, cfg: Config): (t: System)
    requires |s.states| == |s.pcs| == |s.entered|
    ensures |t.states| == |t.pcs| == |t.entered| == |s.states|
    decreases |moves|
  {
    if moves == [] then s else RunAll(Step(s, moves[0], cfg), moves[1..], cfg)
  }

  function Fresh(n: nat): System {
    var states := seq(n, _ => Unborn);
    System(states, seq(n, _ => Free), seq(n, _ => false), [states])
  }

  // ----- the invariant -----

  /** Core `j` was READY at some moment since `since`. */
  ghost predicate WasReady(past: seq<seq<CoreState>>, since: nat, j: nat) {
    exists k :: since <= k < |past| && j < |past[k]| && past[k][j] == Ready
  }

  ghost predicate WasDown(past: seq<seq<CoreState>>, since: nat, j: nat) {
    exists k :: since <= k < |past| && j < |past[k]| && (past[k][j] == Shutdown || past[k][j] == Error)
  }

  /** READY is only ever stored on entry to the startup barrier. */
  ghost predicate ReadyMeansEntered(s: System)
    requires Shape(s)
  {
    forall k, j :: 0 <= k < |s.past| && 0 <= j < |s.states| && s.past[k][j] == Ready ==> s.entered[j]
  }

  ghost predicate PcOk(s: System, c: nat)
    requires Shape(s) && c < |s.pcs|
  {
    match s.pcs[c]
    case Matching(i, _, since) => i < |s.states| && forall j: nat :: j < i ==> WasReady(s.past, since, j)
    case Started(true, since) => forall j: nat :: j < |s.states| ==> WasReady(s.past, since, j)
    case Terminating(i, _, since) => i < |s.states| && forall j: nat :: j < i ==> WasDown(s.past, since, j)
    case Stopped(true, since) => forall j: nat :: j < |s.states| ==> WasDown(s.past, since, j)
    case Started(false, _) => s.states[c] == Error
    case Checking(i, _, _) => i < |s.states|
    case _ => true
  }

  ghost predicate SinceOk(s: System, c: nat)
    requires Shape(s) && c < |s.pcs|
  {
    !s.pcs[c].Free? ==> s.pcs[c].since < |s.past|
  }

  ghost predicate Inv(s: System) {
    Shape(s) && ReadyMeansEntered(s) && forall c: nat :: c < |s.pcs| ==> PcOk(s, c) && SinceOk(s, c)
  }

  lemma GoShape(s: System, c: nat, st: CoreState, pc: Pc)
    requires Shape(s) && c < |s.states|
    ensures Shape(Go(s, c, st, pc))
  {
  }

  /** What was once so stays on record. */
  lemma RecordStays(past: seq<seq<CoreState>>, v: seq<CoreState>, since: nat, j: nat)
    ensures WasReady(past, since, j) ==> WasReady(past + [v], since, j)
    ensures WasDown(past, since, j) ==> WasDown(past + [v], since, j)
    ensures since <= |past| && j < |v| && v[j] == Ready ==> WasReady(past + [v], since, j)
    ensures since <= |past| && j < |v| && Down(v[j]) ==> WasDown(past + [v], since, j)
  {
    var all := past + [v];
    if WasReady(past, since, j) {
      var k :| since <= k < |past| && j < |past[k]| && past[k][j] == Ready;
      assert all[k][j] == Ready;
    }
    if WasDown(past, since, j) {
      var k :| since <= k < |past| && j < |past[k]| && Down(past[k][j]);
      assert Down(all[k][j]);
    }
    assert all[|past|] == v;
  }

  /** Other cores' claims survive a step. */
  lemma OthersKeep(s: System, c: nat, st: CoreState, pc: Pc, d: nat)
    requires Inv(s) && c < |s.states| && d < |s.states| && d != c
    ensures Shape(Go(s, c, st, pc)) && PcOk(Go(s, c, st, pc), d) && SinceOk(Go(s, c, st, pc), d)
  {
    hide WasReady, WasDown, ReadyMeansEntered;
    GoShape(s, c, st, pc);
    var v := s.states[c := st];
    assert PcOk(s, d) && SinceOk(s, d);
    if !s.pcs[d].Free? {
      forall j: nat {
        RecordStays(s.past, v, s.pcs[d].since, j);
      }
    }
  }

  lemma GoKeeps(s: System, c: nat, st: CoreState, pc: Pc, entered: seq<bool>)
    requires Inv(s) && c < |s.states|
    requires entered == s.entered || entered == s.entered[c := true]
    requires st == Ready ==> entered[c]
    requires var t := Go(s, c, st, pc); Shape(t) && PcOk(t, c) && SinceOk(t, c)
    ensures Inv(Go(s, c, st, pc).(entered := entered))
  {
    hide WasReady, WasDown;
    GoShape(s, c, st, pc);
    var t := Go(s, c, st, pc);
    var u := t.(entered := entered);
    forall d: nat | d < |u.pcs|
      ensures PcOk(u, d) && SinceOk(u, d)
    {
      if d != c {
        OthersKeep(s, c, st, pc, d);
      }
      assert PcOk(t, d) && SinceOk(t, d);
    }
    assert ReadyMeansEntered(u) by {
      forall k, j | 0 <= k < |u.past| && 0 <= j < |u.states| && u.past[k][j] == Ready
        ensures u.entered[j]
      {
        if k < |s.past| {
          assert s.past[k][j] == Ready;
        } else {
          assert s.past[|s.past| - 1] == s.states;
          assert j != c ==> s.past[|s.past| - 1][j] == Ready;
        }
      }
    }
  }

  lemma StepKeeps(s: System, m: Move, cfg: Config)
    requires Inv(s)
    ensures Inv(Step(s, m, cfg))
  {
    hide WasReady, WasDown, ReadyMeansEntered, Elapsed;
    if m.core < |s.states| {
      var c := m.core;
      assert PcOk(s, c) && SinceOk(s, c);
      var t := Step(s, m, cfg);
      GoShape(s, c, t.states[c], t.pcs[c]);
      OwnKeeps(s, m, cfg);
      var g := Go(s, c, t.states[c], t.pcs[c]);
      assert PcOk(t, c) && g.pcs == t.pcs && g.past == t.past && g.states == t.states;
      assert PcOk(g, c) && SinceOk(g, c);
      if t.states[c] == Ready && !t.entered[c] {
        ReadyIsEntered(s, c);
      }
      GoKeeps(s, c, t.states[c], t.pcs[c], t.entered);
    }
  }

  lemma ReadyIsEntered(s: System, c: nat)
    requires Inv(s) && c < |s.states| && s.states[c] == Ready
    ensures s.entered[c]
  {
    assert s.past[|s.past| - 1][c] == Ready;
  }

  lemma OwnKeeps(s: System, m: Move, cfg: Config)
    requires Inv(s) && m.core < |s.states|
    ensures var t := Step(s, m, cfg);
            && Shape(t) && PcOk(t, m.core) && SinceOk(t, m.core)
            && t == Go(s, m.core, t.states[m.core], t.pcs[m.core]).(entered := t.entered)
            && (t.entered == s.entered || t.entered == s.entered[m.core := true])
            && (t.states[m.core] == Ready ==> t.entered[m.core] || s.states[m.core] == Ready)
  {
    hide WasReady, WasDown, ReadyMeansEntered, Elapsed;
    var c := m.core;
    var t := Step(s, m, cfg);
    GoShape(s, c, t.states[c], t.pcs[c]);
    assert PcOk(s, c) && SinceOk(s, c);
    if !s.pcs[c].Free? {
      var since, v := s.pcs[c].since, t.states;
      assert s.pcs[c].Matching? || s.pcs[c].Terminating? || s.pcs[c].Checking? ==> v == s.states;
      forall j: nat {
        RecordStays(s.past, v, since, j);
      }
    }
  }

  lemma FreshInv(n: nat)
    requires n > 0
    ensures Inv(Fresh(n))
  {
  }

  lemma {:induction false} RunKeeps(s: System, moves: seq<Move>, cfg: Config)
    requires Inv(s)
    ensures Inv(RunAll(s, moves, cfg))
    decreases |moves|
  {
    hide Step, Inv;
    if moves != [] {
      InvSize(s);
      StepKeeps(s, moves[0], cfg);
      RunKeeps(Step(s, moves[0], cfg), moves[1..], cfg);
    }
  }

  lemma InvSize(s: System)
    requires Inv(s)
    ensures |s.states| == |s.pcs| == |s.entered|
  {
  }

  /** What a core stores outside its loops, and that it stores nothing but its own state. */
  lemma StoresExactly(s: System, m: Move, cfg: Config)
    requires |s.states| == |s.pcs| == |s.entered| && m.core < |s.states| && !InBarrier(s.pcs[m.core])
    ensures Step(s, m, cfg).states ==
            s.states[m.core := match m.act
                               case SetInit => Init
                               case SetError => Error
                               case StartupBarrier => Ready
                               case ShutdownBarrier => Shutdown]
  {
    hide Elapsed;
  }

  // ----- what the barriers promise -----

  /**
   * In every interleaving from a fresh object: a core returns true from the startup barrier
   * only after every core has entered it, each having been READY during the call, although
   * the states are read one at a time; a core that returned false is in ERROR; and a core
   * returns true from the shutdown barrier only when each core was in SHUTDOWN or ERROR at
   * some moment of the call.
   */
  lemma BarriersHold(n: nat, moves: seq<Move>, cfg: Config, c: nat)
    requires c < n
    ensures var t := RunAll(Fresh(n), moves, cfg);
            && |t.pcs| == |t.entered| == |t.states| == n
            && (t.pcs[c].Started? && t.pcs[c].ok ==>
                  forall j: nat :: j < n ==> t.entered[j] && WasReady(t.past, t.pcs[c].since, j))
            && (t.pcs[c].Started? && !t.pcs[c].ok ==> t.states[c] == Error)
            && (t.pcs[c].Stopped? && t.pcs[c].ok ==> forall j: nat :: j < n ==> WasDown(t.past, t.pcs[c].since, j))
  {
    hide RunAll, WasReady, WasDown;
    FreshInv(n);
    RunKeeps(Fresh(n), moves, cfg);
    var t := RunAll(Fresh(n), moves, cfg);
    assert PcOk(t, c);
    forall j: nat | j < n && t.pcs[c].Started? && t.pcs[c].ok
      ensures t.entered[j]
    {
      WasReadyEntered(t, t.pcs[c].since, j);
    }
  }

  lemma WasReadyEntered(s: System, since: nat, j: nat)
    requires Inv(s) && j < |s.states|
    ensures WasReady(s.past, since, j) ==> s.entered[j]
  {
    if WasReady(s.past, since, j) {
      var k :| since <= k < |s.past| && j < |s.past[k]| && s.past[k][j] == Ready;
    }
  }

  // ----- how long a barrier polls -----

  /** The polls that make up the timeout. */
  function Polls(cfg: Config): nat
    requires cfg.poll > 0
  {
    (cfg.timeout + cfg.poll - 1) / cfg.poll
  }

  /** The elapsed counter does not wrap before it reaches the timeout. */
  predicate NoWrap(cfg: Config) {
    cfg.poll > 0 && Polls(cfg) * cfg.poll < MILLIS
  }

  lemma Rounding(cfg: Config)
    requires cfg.poll > 0
    ensures cfg.timeout <= Polls(cfg) * cfg.poll < cfg.timeout + cfg.poll
  {
    var q := Polls(cfg);
    assert cfg.timeout + cfg.poll - 1 == q * cfg.poll + (cfg.timeout + cfg.poll - 1) % cfg.poll;
  }

  lemma Times(a: nat, b: nat, p: nat)
    requires a < b
    ensures a * p + p <= b * p
  {
    assert (b - a) * p >= p by { AtLeast(b - a, p); }
    assert (b - a) * p == b * p - a * p;
  }

  lemma AtLeast(k: nat, p: nat)
    requires k >= 1
    ensures k * p >= p
  {
  }

  lemma SmallModulus(x: nat)
    requires x < MILLIS
    ensures x % MILLIS == x
  {
  }

  lemma OneWrap(x: nat)
    requires MILLIS <= x < 2 * MILLIS
    ensures x % MILLIS == x - MILLIS
  {
  }

  /** Before the last poll the timeout has not elapsed. */
  lemma NotYet(k: nat, cfg: Config)
    requires cfg.poll > 0 && cfg.timeout < MILLIS && k < Polls(cfg)
    ensures Elapsed(k, cfg) < cfg.timeout
  {
    hide Polls;
    Rounding(cfg);
    Times(k, Polls(cfg), cfg.poll);
    SmallModulus(k * cfg.poll);
  }

  /**
   * A barrier whose peers never answer gives up after exactly ceil(timeout / poll) polls if
   * and only if the 32-bit counter does not wrap by then.
   */
  lemma GivesUpExactly(cfg: Config)
    requires 0 < cfg.poll < MILLIS && cfg.timeout < MILLIS
    ensures forall k: nat :: k < Polls(cfg) ==> Elapsed(k, cfg) < cfg.timeout
    ensures Elapsed(Polls(cfg), cfg) >= cfg.timeout <==> NoWrap(cfg)
  {
    forall k: nat | k < Polls(cfg)
      ensures Elapsed(k, cfg) < cfg.timeout
    {
      NotYet(k, cfg);
    }
    Rounding(cfg);
    hide Polls;
    var x := Polls(cfg) * cfg.poll;
    if x < MILLIS {
      SmallModulus(x);
    } else {
      OneWrap(x);
    }
  }

  /** Once it wraps, a barrier may poll for ever: 2^32 - 1 ms in steps of 2 ms never elapse. */
  lemma NeverElapses(k: nat)
    ensures Elapsed(k, Config(MILLIS - 1, 2)) < MILLIS - 1
  {
    assert k * 2 % MILLIS % 2 == 0 by { EvenModulus(k * 2); }
  }

  lemma EvenModulus(x: nat)
    requires x % 2 == 0
    ensures x % MILLIS % 2 == 0
  {
    assert x == x / MILLIS * MILLIS + x % MILLIS;
  }

  // ----- whether a barrier gives up at all -----

  /** The largest power of two that divides `p`, and the odd rest. */
  function Twos(p: nat): (j: nat)
    requires p > 0
  {
    if p % 2 == 1 then 0 else Twos(p / 2) + 1
  }

  function OddPart(p: nat): (o: nat)
    requires p > 0
    ensures o % 2 == 1
  {
    if p % 2 == 1 then p else OddPart(p / 2)
  }

  function Pow(j: nat): (r: nat)
    ensures r > 0
  {
    if j == 0 then 1 else 2 * Pow(j - 1)
  }

  lemma {:induction false} PowProduct(a: nat, b: nat)
    ensures Pow(a) * Pow(b) == Pow(a + b)
  {
    if a > 0 {
      PowProduct(a - 1, b);
      assert Pow(a) * Pow(b) == 2 * (Pow(a - 1) * Pow(b));
    }
  }

  lemma {:induction false} TwosSplit(p: nat)
    requires p > 0
    ensures p == Pow(Twos(p)) * OddPart(p)
  {
    if p % 2 == 0 {
      TwosSplit(p / 2);
      assert Pow(Twos(p)) * OddPart(p) == 2 * (Pow(Twos(p / 2)) * OddPart(p / 2));
    }
  }

  lemma PowWord()
    ensures Pow(32) == MILLIS
  {
    assert Pow(8) == 256;
    PowProduct(8, 8);
    PowProduct(16, 16);
  }

  lemma {:induction false} PowGrows(a: nat, b: nat)
    requires a <= b
    ensures Pow(a) <= Pow(b)
    decreases b
  {
    if a < b {
      PowGrows(a, b - 1);
    }
  }

  lemma TwosBelow(p: nat)
    requires 0 < p < MILLIS
    ensures Twos(p) < 32
  {
    hide Pow, Twos;
    TwosSplit(p);
    PowWord();
    AtLeast(OddPart(p), Pow(Twos(p)));
    if Twos(p) >= 32 {
      PowGrows(32, Twos(p));
    }
  }

  /** An odd number has an inverse modulo every power of two. */
  lemma {:induction false} OddInverse(o: nat, m: nat) returns (x: nat, c: nat)
    requires o % 2 == 1
    ensures o * x == 1 + c * Pow(m)
  {
    if m == 0 {
      x, c := 1, o - 1;
    } else {
      var y, d := OddInverse(o, m - 1);
      var w := Pow(m - 1);
      if d % 2 == 0 {
        x, c := y, d / 2;
        Halves(d, w);
      } else {
        x, c := y + w, (d + o) / 2;
        assert o * (y + w) == o * y + o * w;
        assert d * w + o * w == (d + o) * w;
        Halves(d + o, w);
      }
    }
  }

  lemma Halves(d: nat, w: nat)
    requires d % 2 == 0
    ensures d * w == d / 2 * (2 * w)
  {
    assert d == d / 2 * 2;
  }

  /** The counter takes only multiples of the largest power of two in the interval. */
  lemma ElapsedBelow(k: nat, cfg: Config)
    requires 0 < cfg.poll < MILLIS
    ensures Elapsed(k, cfg) + Pow(Twos(cfg.poll)) <= MILLIS
  {
    hide Pow, Twos;
    TwosBelow(cfg.poll);
    var g, o, m := Pow(Twos(cfg.poll)), OddPart(cfg.poll), Pow(32 - Twos(cfg.poll));
    TwosSplit(cfg.poll);
    PowProduct(Twos(cfg.poll), 32 - Twos(cfg.poll));
    PowWord();
    var x := k * cfg.poll;
    RemainderIsMultiple(x, x / MILLIS, Elapsed(k, cfg), k, g, o, m);
    BelowMultiple(k * o - x / MILLIS * m, m, g);
  }

  lemma RemainderIsMultiple(x: nat, q: nat, e: nat, k: nat, g: nat, o: nat, m: nat)
    requires x == k * (g * o) == q * (g * m) + e
    ensures e == g * (k * o - q * m)
  {
    assert k * (g * o) == g * (k * o) && q * (g * m) == g * (q * m);
    assert g * (k * o - q * m) == g * (k * o) - g * (q * m);
  }

  lemma BelowMultiple(z: int, m: int, g: nat)
    requires g > 0 && g * z < g * m
    ensures g * z + g <= g * m
  {
    assert (z - m) * g == g * z - g * m;
    Signs(z - m, g);
    assert (m - 1 - z) * g == g * m - g - g * z;
    Signs(m - 1 - z, g);
  }

  lemma Signs(a: int, g: nat)
    ensures a >= 0 ==> a * g >= 0
  {
  }

  lemma NotNegative(a: int, g: nat)
    requires a >= 0
    ensures a * g >= 0
  {
  }

  /** And it takes the largest of them. */
  lemma ElapsedReaches(cfg: Config) returns (k: nat)
    requires 0 < cfg.poll < MILLIS
    ensures Elapsed(k, cfg) + Pow(Twos(cfg.poll)) == MILLIS
  {
    hide Pow, Twos;
    TwosBelow(cfg.poll);
    var j := Twos(cfg.poll);
    var g, o, m := Pow(j), OddPart(cfg.poll), Pow(32 - j);
    TwosSplit(cfg.poll);
    PowProduct(j, 32 - j);
    PowWord();
    var x, c := OddInverse(o, 32 - j);
    k := x * (m - 1);
    InverseLap(o, x, c, m, g, k);
    assert k * cfg.poll == c * (m - 1) * MILLIS + (MILLIS - g);
    NotNegative(c * (m - 1), 1);
    AtLeast(m, g);
    Remainder(k * cfg.poll, c * (m - 1), MILLIS - g, MILLIS);
  }

  lemma InverseLap(o: nat, x: nat, c: nat, m: nat, g: nat, k: nat)
    requires m > 0 && o * x == 1 + c * m && k == x * (m - 1)
    ensures k * (g * o) == c * (m - 1) * (g * m) + (g * m - g)
  {
    assert k * (g * o) == (o * x) * (g * (m - 1));
    assert (1 + c * m) * (g * (m - 1)) == g * (m - 1) + c * m * (g * (m - 1));
    assert c * m * (g * (m - 1)) == c * (m - 1) * (g * m);
    assert g * (m - 1) == g * m - g;
  }

  /**
   * An unanswered barrier gives up at all, sooner or later, if and only if the timeout
   * leaves room below 2^32 for the largest power of two that divides the poll interval.
   */
  lemma GivesUpAtAllExactly(cfg: Config)
    requires 0 < cfg.poll < MILLIS
    ensures (exists k: nat :: Elapsed(k, cfg) >= cfg.timeout) <==> cfg.timeout + Pow(Twos(cfg.poll)) <= MILLIS
  {
    hide Elapsed, Pow, Twos;
    forall k: nat
      ensures Elapsed(k, cfg) + Pow(Twos(cfg.poll)) <= MILLIS
    {
      ElapsedBelow(k, cfg);
    }
    var k := ElapsedReaches(cfg);
  }

  // ----- a barrier returns -----

  predicate InBarrier(pc: Pc) {
    pc.Checking? || pc.Matching? || pc.Failing? || pc.Terminating?
  }

  /** The steps that the polls from the `k`-th on can take. */
  function Steps(k: nat, n: nat, cfg: Config): int
    requires cfg.poll > 0
  {
    (Polls(cfg) - k) * (2 * n + 1)
  }

  /** An upper bound on the core's own steps until it returns. */
  function Rank(pc: Pc, n: nat, cfg: Config): int
    requires cfg.poll > 0
  {
    match pc
    case Checking(i, k, _) => Steps(k, n, cfg) + 1 - i
    case Matching(i, k, _) => Steps(k, n, cfg) + 1 - n - i
    case Terminating(i, k, _) => Steps(k, n, cfg) + 1 - i
    case Failing(_) => 1
    case _ => 0
  }

  /** A core in a barrier has not used up its polls. */
  ghost predicate InTime(s: System, c: nat, cfg: Config)
    requires c < |s.pcs|
  {
    && cfg.poll > 0 && NoWrap(cfg) && cfg.timeout < MILLIS
    && (match s.pcs[c]
        case Checking(i, k, _) => k < Polls(cfg) && i < |s.states|
        case Matching(i, k, _) => k < Polls(cfg) && i < |s.states|
        case Terminating(i, k, _) => k < Polls(cfg) && i < |s.states|
        case _ => true)
  }

  lemma HeadInTime(k: nat, cfg: Config)
    requires NoWrap(cfg) && cfg.timeout < MILLIS && k <= Polls(cfg)
    ensures Elapsed(k, cfg) < cfg.timeout <==> k < Polls(cfg)
  {
    hide Polls;
    Rounding(cfg);
    if k < Polls(cfg) {
      NotYet(k, cfg);
    } else {
      SmallModulus(Polls(cfg) * cfg.poll);
    }
  }

  lemma NextPoll(k: nat, n: nat, cfg: Config)
    requires cfg.poll > 0
    ensures Steps(k + 1, n, cfg) == Steps(k, n, cfg) - (2 * n + 1)
    ensures k < Polls(cfg) ==> Steps(k, n, cfg) >= 2 * n + 1
  {
    hide Polls;
    if k < Polls(cfg) {
      AtLeast(Polls(cfg) - k, 2 * n + 1);
    }
  }

  lemma RankPositive(s: System, c: nat, cfg: Config)
    requires c < |s.pcs| && InTime(s, c, cfg) && InBarrier(s.pcs[c])
    ensures Rank(s.pcs[c], |s.states|, cfg) >= 1
  {
    hide Polls, Steps;
    if !s.pcs[c].Failing? {
      NextPoll(s.pcs[c].polls, |s.states|, cfg);
    }
  }

  lemma OwnStepCounts(s: System, m: Move, cfg: Config)
    requires |s.states| == |s.pcs| == |s.entered| && m.core < |s.states|
    requires InTime(s, m.core, cfg) && InBarrier(s.pcs[m.core])
    ensures var t := Step(s, m, cfg);
            InTime(t, m.core, cfg) && Rank(t.pcs[m.core], |t.states|, cfg) < Rank(s.pcs[m.core], |s.states|, cfg)
  {
    hide Elapsed, Polls, NoWrap, Steps;
    var c := m.core;
    RankPositive(s, c, cfg);
    if !s.pcs[c].Failing? {
      var k := s.pcs[c].polls;
      HeadInTime(k + 1, cfg);
      NextPoll(k, |s.states|, cfg);
      NextPoll(k + 1, |s.states|, cfg);
    }
  }

  function OwnMoves(moves: seq<Move>, c: nat): nat {
    if moves == [] then 0 else (if moves[0].core == c then 1 else 0) + OwnMoves(moves[1..], c)
  }

  lemma {:induction false} BarrierEnds(s: System, moves: seq<Move>, c: nat, cfg: Config) returns (k: nat)
    requires |s.states| == |s.pcs| == |s.entered| && c < |s.states| && InTime(s, c, cfg)
    requires OwnMoves(moves, c) >= Rank(s.pcs[c], |s.states|, cfg)
    ensures k <= |moves|
    ensures !InBarrier(RunAll(s, moves[..k], cfg).pcs[c])
    decreases |moves|
  {
    hide Step, InTime, Rank;
    if !InBarrier(s.pcs[c]) {
      k := 0;
    } else {
      RankPositive(s, c, cfg);
      var t := Step(s, moves[0], cfg);
      StepSizes(s, moves[0], cfg);
      if moves[0].core == c {
        OwnStepCounts(s, moves[0], cfg);
      } else {
        OtherStepKeeps(s, moves[0], c, cfg);
      }
      var j := BarrierEnds(t, moves[1..], c, cfg);
      k := j + 1;
      assert moves[..k][1..] == moves[1..][..j];
    }
  }

  lemma StepSizes(s: System, m: Move, cfg: Config)
    requires |s.states| == |s.pcs| == |s.entered|
    ensures var t := Step(s, m, cfg); |t.states| == |t.pcs| == |t.entered| == |s.states|
  {
  }

  lemma OtherStepKeeps(s: System, m: Move, c: nat, cfg: Config)
    requires |s.states| == |s.pcs| == |s.entered| && c < |s.states| && m.core != c && InTime(s, c, cfg)
    ensures var t := Step(s, m, cfg);
            |t.states| == |t.pcs| == |s.states| && t.pcs[c] == s.pcs[c] && InTime(t, c, cfg)
  {
    hide Elapsed, Polls, NoWrap;
  }

  /** A core that enters a barrier has all its polls ahead of it. */
  lemma EntryInTime(s: System, m: Move, cfg: Config)
    requires |s.states| == |s.pcs| == |s.entered| && m.core < |s.states| && NoWrap(cfg) && cfg.timeout < MILLIS
    requires !InBarrier(s.pcs[m.core]) && (m.act == StartupBarrier || m.act == ShutdownBarrier)
    ensures InTime(Step(s, m, cfg), m.core, cfg)
  {
    hide Elapsed, Polls;
    HeadInTime(0, cfg);
  }

  /** Every core that polls has polls left. */
  lemma StepInTime(s: System, m: Move, c: nat, cfg: Config)
    requires |s.states| == |s.pcs| == |s.entered| && c < |s.states| && InTime(s, c, cfg)
    ensures |Step(s, m, cfg).pcs| == |s.pcs| && InTime(Step(s, m, cfg), c, cfg)
  {
    hide Elapsed, Polls, Rank;
    StepSizes(s, m, cfg);
    if m.core != c {
      OtherStepKeeps(s, m, c, cfg);
    } else if InBarrier(s.pcs[c]) {
      OwnStepCounts(s, m, cfg);
    } else if m.act == StartupBarrier || m.act == ShutdownBarrier {
      EntryInTime(s, m, cfg);
    }
  }

  lemma {:induction false} RunInTime(s: System, moves: seq<Move>, c: nat, cfg: Config)
    requires |s.states| == |s.pcs| == |s.entered| && c < |s.states| && InTime(s, c, cfg)
    ensures InTime(RunAll(s, moves, cfg), c, cfg)
    decreases |moves|
  {
    hide Step, InTime;
    if moves != [] {
      StepSizes(s, moves[0], cfg);
      StepInTime(s, moves[0], c, cfg);
      RunInTime(Step(s, moves[0], cfg), moves[1..], c, cfg);
    }
  }

  /**
   * Without wrap-around no core of a run from a fresh object ever starts more than
   * ceil(timeout / poll) polls of one barrier.
   */
  lemma PollsBounded(n: nat, moves: seq<Move>, c: nat, cfg: Config)
    requires c < n && NoWrap(cfg) && cfg.timeout < MILLIS
    ensures var pc := RunAll(Fresh(n), moves, cfg).pcs[c];
            pc.Checking? || pc.Matching? || pc.Terminating? ==> pc.polls < Polls(cfg)
  {
    hide RunAll, Polls;
    RunInTime(Fresh(n), moves, c, cfg);
  }

  /** Core `c` is out of its barrier at some point of these moves. */
  ghost predicate ReturnsWithin(s: System, moves: seq<Move>, c: nat, cfg: Config)
    requires |s.states| == |s.pcs| == |s.entered| && c < |s.states|
  {
    exists k: nat :: k <= |moves| && !InBarrier(RunAll(s, moves[..k], cfg).pcs[c])
  }

  /**
   * And every barrier entered in such a run returns within its polls' worth of its core's
   * own steps, 2n + 1 to a poll, whatever the other cores do.
   */
  lemma BarrierReturns(n: nat, before: seq<Move>, m: Move, after: seq<Move>, cfg: Config)
    requires m.core < n && NoWrap(cfg) && cfg.timeout < MILLIS
    requires !InBarrier(RunAll(Fresh(n), before, cfg).pcs[m.core]) &&
             (m.act == StartupBarrier || m.act == ShutdownBarrier)
    requires OwnMoves(after, m.core) >= Polls(cfg) * (2 * n + 1) + 1
    ensures var t := Step(RunAll(Fresh(n), before, cfg), m, cfg);
            |t.states| == |t.pcs| == |t.entered| == n && ReturnsWithin(t, after, m.core, cfg)
  {
    hide RunAll, Polls, Rank, InTime;
    var s := RunAll(Fresh(n), before, cfg);
    EntryInTime(s, m, cfg);
    EntryRank(s, m, cfg);
    StepSizes(s, m, cfg);
    var k := BarrierEnds(Step(s, m, cfg), after, m.core, cfg);
  }

  lemma EntryRank(s: System, m: Move, cfg: Config)
    requires |s.states| == |s.pcs| == |s.entered| && m.core < |s.states| && cfg.poll > 0
    requires !InBarrier(s.pcs[m.core]) && (m.act == StartupBarrier || m.act == ShutdownBarrier)
    ensures Rank(Step(s, m, cfg).pcs[m.core], |s.states|, cfg) <= Polls(cfg) * (2 * |s.states| + 1) + 1
  {
    hide Elapsed, Polls;
    NotNegative(Polls(cfg), 2 * |s.states| + 1);
    assert Steps(0, |s.states|, cfg) == Polls(cfg) * (2 * |s.states| + 1);
  }

  // ----- one call, as its own core sees it -----

  /** `load(k, scan, i)` is what the calling core reads of another core `i` in a scan of its poll `k`. */
  type Loads = (nat, nat, nat) -> CoreState

  /** A call by core `c` of `n`, which holds its own state throughout. */
  datatype Call = Call(n: nat, c: nat, own: CoreState, load: Loads)

  function Seen(call: Call, k: nat, scan: nat, i: nat): CoreState {
    if i == call.c then call.own else call.load(k, scan, i)
  }

  ghost predicate SeesError(call: Call, k: nat) {
    exists i: nat :: i < call.n && Seen(call, k, 0, i) == Error
  }

  ghost predicate SeesReady(call: Call, k: nat) {
    forall i: nat :: i < call.n ==> Seen(call, k, 1, i) == Ready
  }

  ghost predicate SeesDown(call: Call, k: nat) {
    forall i: nat :: i < call.n ==> Seen(call, k, 0, i) == Shutdown || Seen(call, k, 0, i) == Error
  }

  /** The first `polls` polls were made and none of them decided. */
  ghost predicate StartupWaits(call: Call, cfg: Config, polls: nat) {
    forall k: nat :: k < polls ==> Elapsed(k, cfg) < cfg.timeout && !SeesError(call, k) && !SeesReady(call, k)
  }

  ghost predicate ShutdownWaits(call: Call, cfg: Config, polls: nat) {
    forall k: nat :: k < polls ==> Elapsed(k, cfg) < cfg.timeout && !SeesDown(call, k)
  }

  /** The first poll that sees an error or everyone READY decides; the timeout does if it comes first. */
  ghost predicate StartupVerdict(call: Call, cfg: Config, ok: bool, polls: nat) {
    && StartupWaits(call, cfg, polls)
    && (ok ==> Elapsed(polls, cfg) < cfg.timeout && !SeesError(call, polls) && SeesReady(call, polls))
    && (!ok ==> Elapsed(polls, cfg) >= cfg.timeout || SeesError(call, polls))
  }

  ghost predicate ShutdownVerdict(call: Call, cfg: Config, ok: bool, polls: nat) {
    && ShutdownWaits(call, cfg, polls)
    && (if ok then Elapsed(polls, cfg) < cfg.timeout && SeesDown(call, polls) else Elapsed(polls, cfg) >= cfg.timeout)
  }

  /** What the core reads determines the verdict. */
  lemma VerdictUnique(call: Call, cfg: Config, a: bool, p: nat, b: bool, q: nat)
    ensures StartupVerdict(call, cfg, a, p) && StartupVerdict(call, cfg, b, q) ==> a == b && p == q
    ensures ShutdownVerdict(call, cfg, a, p) && ShutdownVerdict(call, cfg, b, q) ==> a == b && p == q
  {
    hide SeesError, SeesReady, SeesDown, Elapsed;
  }

  // ----- the machine's barriers are these calls -----

  /** The core's next step reads what `load` says. */
  ghost predicate ReadsAs(s: System, call: Call) {
    && |s.states| == |s.pcs| == call.n && call.c < call.n
    && (match s.pcs[call.c]
        case Checking(i, k, _) => i < call.n && (i == call.c || s.states[i] == call.load(k, 0, i))
        case Matching(i, k, _) => i < call.n && (i == call.c || s.states[i] == call.load(k, 1, i))
        case Terminating(i, k, _) => i < call.n && (i == call.c || s.states[i] == call.load(k, 0, i))
        case Failing(_) => true
        case _ => false)
  }

  /** In this run the core stays in its barrier until the end and reads what `load` says. */
  ghost predicate Serves(s: System, moves: seq<Move>, call: Call, cfg: Config)
    requires |s.states| == |s.pcs| == |s.entered|
    decreases |moves|
  {
    moves == [] ||
    ((moves[0].core == call.c ==> ReadsAs(s, call)) &&
     var t := Step(s, moves[0], cfg);
     |t.states| == |t.pcs| == |t.entered| && Serves(t, moves[1..], call, cfg))
  }

  /** How far the call has got, from where the core stands. */
  ghost predicate Underway(s: System, call: Call, cfg: Config) {
    && |s.states| == |s.pcs| == |s.entered| == call.n && call.c < call.n
    && match s.pcs[call.c]
       case Checking(i, k, _) =>
         && s.states[call.c] == call.own && StartupWaits(call, cfg, k) && Elapsed(k, cfg) < cfg.timeout
         && forall j: nat :: j < i ==> Seen(call, k, 0, j) != Error
       case Matching(i, k, _) =>
         && s.states[call.c] == call.own && StartupWaits(call, cfg, k) && Elapsed(k, cfg) < cfg.timeout
         && !SeesError(call, k) && forall j: nat :: j < i ==> Seen(call, k, 1, j) == Ready
       case Failing(_) => exists p: nat :: StartupVerdict(call, cfg, false, p)
       case Started(ok, _) => exists p: nat :: StartupVerdict(call, cfg, ok, p)
       case Terminating(i, k, _) =>
         && s.states[call.c] == call.own && ShutdownWaits(call, cfg, k) && Elapsed(k, cfg) < cfg.timeout
         && forall j: nat :: j < i ==> Down(Seen(call, k, 0, j))
       case Stopped(ok, _) => exists p: nat :: ShutdownVerdict(call, cfg, ok, p)
       case Free => false
  }

  lemma OtherStepUnderway(s: System, m: Move, call: Call, cfg: Config)
    requires Underway(s, call, cfg) && m.core != call.c
    ensures Underway(Step(s, m, cfg), call, cfg)
  {
    hide Elapsed, StartupWaits, ShutdownWaits, StartupVerdict, ShutdownVerdict, Seen, SeesError;
  }

  lemma StartupHeadUnderway(s: System, call: Call, cfg: Config, k: nat, since: nat)
    requires |s.states| == |s.pcs| == |s.entered| == call.n && call.c < call.n && s.states[call.c] == call.own
    requires s.pcs[call.c] == StartupHead(k, since, cfg) && StartupWaits(call, cfg, k)
    ensures Underway(s, call, cfg)
  {
    hide Elapsed, StartupWaits, SeesError, SeesReady;
    if Elapsed(k, cfg) >= cfg.timeout {
      assert StartupVerdict(call, cfg, false, k);
    }
  }

  lemma ShutdownHeadUnderway(s: System, call: Call, cfg: Config, k: nat, since: nat)
    requires |s.states| == |s.pcs| == |s.entered| == call.n && call.c < call.n && s.states[call.c] == call.own
    requires s.pcs[call.c] == ShutdownHead(k, since, cfg) && ShutdownWaits(call, cfg, k)
    ensures Underway(s, call, cfg)
  {
    hide Elapsed, ShutdownWaits, SeesDown;
    if Elapsed(k, cfg) >= cfg.timeout {
      assert ShutdownVerdict(call, cfg, false, k);
    }
  }

  lemma CheckingUnderway(s: System, m: Move, call: Call, cfg: Config)
    requires Underway(s, call, cfg) && ReadsAs(s, call) && m.core == call.c && s.pcs[m.core].Checking?
    ensures Underway(Step(s, m, cfg), call, cfg)
  {
    hide Elapsed, StartupWaits, SeesReady;
    var i, k := s.pcs[m.core].i, s.pcs[m.core].polls;
    assert Seen(call, k, 0, i) == s.states[i];
    if s.states[i] == Error {
      assert StartupVerdict(call, cfg, false, k);
    }
  }

  lemma MatchingUnderway(s: System, m: Move, call: Call, cfg: Config)
    requires Underway(s, call, cfg) && ReadsAs(s, call) && m.core == call.c && s.pcs[m.core].Matching?
    ensures Underway(Step(s, m, cfg), call, cfg)
  {
    hide Elapsed, SeesError, StartupHead;
    var i, k := s.pcs[m.core].i, s.pcs[m.core].polls;
    assert Seen(call, k, 1, i) == s.states[i];
    var t := Step(s, m, cfg);
    if s.states[i] != Ready {
      assert StartupWaits(call, cfg, k + 1);
      StartupHeadUnderway(t, call, cfg, k + 1, s.pcs[m.core].since);
    } else if i + 1 == call.n {
      assert StartupVerdict(call, cfg, true, k);
    }
  }

  lemma TerminatingUnderway(s: System, m: Move, call: Call, cfg: Config)
    requires Underway(s, call, cfg) && ReadsAs(s, call) && m.core == call.c && s.pcs[m.core].Terminating?
    ensures Underway(Step(s, m, cfg), call, cfg)
  {
    hide Elapsed, ShutdownHead;
    var i, k := s.pcs[m.core].i, s.pcs[m.core].polls;
    assert Seen(call, k, 0, i) == s.states[i];
    var t := Step(s, m, cfg);
    if !Down(s.states[i]) {
      assert ShutdownWaits(call, cfg, k + 1);
      ShutdownHeadUnderway(t, call, cfg, k + 1, s.pcs[m.core].since);
    } else if i + 1 == call.n {
      assert ShutdownVerdict(call, cfg, true, k);
    }
  }

  lemma OwnStepUnderway(s: System, m: Move, call: Call, cfg: Config)
    requires Underway(s, call, cfg) && ReadsAs(s, call) && m.core == call.c
    ensures Underway(Step(s, m, cfg), call, cfg)
  {
    match s.pcs[call.c] {
      case Checking(_, _, _) => CheckingUnderway(s, m, call, cfg);
      case Matching(_, _, _) => MatchingUnderway(s, m, call, cfg);
      case Terminating(_, _, _) => TerminatingUnderway(s, m, call, cfg);
      case _ =>
    }
    hide Elapsed, StartupWaits, ShutdownWaits, StartupVerdict, ShutdownVerdict, Seen, SeesError;
  }

  lemma {:induction false} RunUnderway(s: System, moves: seq<Move>, call: Call, cfg: Config)
    requires |s.states| == |s.pcs| == |s.entered| && Underway(s, call, cfg) && Serves(s, moves, call, cfg)
    ensures Underway(RunAll(s, moves, cfg), call, cfg)
    decreases |moves|
  {
    hide Step, Underway, ReadsAs;
    if moves != [] {
      StepSizes(s, moves[0], cfg);
      if moves[0].core == call.c {
        OwnStepUnderway(s, moves[0], call, cfg);
      } else {
        OtherStepUnderway(s, moves[0], call, cfg);
      }
      RunUnderway(Step(s, moves[0], cfg), moves[1..], call, cfg);
    }
  }

  // ----- every run of a call reads as some `load` says -----

  predicate Reading(pc: Pc) {
    pc.Checking? || pc.Matching? || pc.Terminating?
  }

  /** Which load a core makes next: its poll, its scan of that poll, and the core it looks at. */
  function Key(pc: Pc): (nat, nat, nat)
    requires Reading(pc)
  {
    (pc.polls, if pc.Matching? then 1 else 0, pc.i)
  }

  predicate Before(a: (nat, nat, nat), b: (nat, nat, nat)) {
    a.0 < b.0 || (a.0 == b.0 && (a.1 < b.1 || (a.1 == b.1 && a.2 < b.2)))
  }

  /** What core `c` reads in a run. */
  function Record(s: System, moves: seq<Move>, c: nat, cfg: Config): Loads
    requires |s.states| == |s.pcs| == |s.entered| && c < |s.states|
    decreases |moves|
  {
    if moves == [] then (k, scan, i) => Unborn
    else
      StepSizes(s, moves[0], cfg);
      var later := Record(Step(s, moves[0], cfg), moves[1..], c, cfg);
      var pc := s.pcs[c];
      if moves[0].core == c && Reading(pc) && pc.i < |s.states| then Noted(later, Key(pc), s.states[pc.i])
      else later
  }

  function Noted(load: Loads, key: (nat, nat, nat), st: CoreState): Loads {
    (k: nat, scan: nat, i: nat) => if (k, scan, i) == key then st else load(k, scan, i)
  }

  /** Core `c` takes no step of its own after its barrier has returned. */
  ghost predicate Within(s: System, moves: seq<Move>, c: nat, cfg: Config)
    requires |s.states| == |s.pcs| == |s.entered| && c < |s.states|
    decreases |moves|
  {
    moves != [] ==>
      && (moves[0].core == c ==> InBarrier(s.pcs[c]))
      && var t := Step(s, moves[0], cfg);
         |t.states| == |t.pcs| == |t.entered| == |s.states| && Within(t, moves[1..], c, cfg)
  }

  /** Two loads are the same from where the core stands on. */
  ghost predicate Alike(pc: Pc, a: Loads, b: Loads) {
    Reading(pc) ==>
      forall k: nat, scan: nat, i: nat :: !Before((k, scan, i), Key(pc)) ==> a(k, scan, i) == b(k, scan, i)
  }

  /** Each load is made once, and in order. */
  lemma KeyAdvances(s: System, m: Move, cfg: Config)
    requires |s.states| == |s.pcs| == |s.entered| && m.core < |s.states| && Reading(s.pcs[m.core])
    ensures var t := Step(s, m, cfg);
            && |t.pcs| == |s.pcs|
            && (Reading(t.pcs[m.core]) ==> Before(Key(s.pcs[m.core]), Key(t.pcs[m.core])))
            && (s.pcs[m.core].i < |s.states| && Reading(t.pcs[m.core]) ==> t.pcs[m.core].i < |s.states|)
  {
    hide Elapsed;
  }

  lemma AlikeOn(s: System, m: Move, c: nat, a: Loads, b: Loads, cfg: Config)
    requires |s.states| == |s.pcs| == |s.entered| && c < |s.states| && Alike(s.pcs[c], a, b)
    requires m.core == c ==> InBarrier(s.pcs[c])
    ensures var t := Step(s, m, cfg); |t.pcs| == |s.pcs| && Alike(t.pcs[c], a, b)
  {
    hide Elapsed;
    if m.core == c && Reading(s.pcs[c]) {
      KeyAdvances(s, m, cfg);
    }
  }

  lemma {:induction false} ServesAlike(s: System, moves: seq<Move>, call: Call, b: Loads, cfg: Config)
    requires |s.states| == |s.pcs| == |s.entered| == call.n && call.c < call.n
    requires Serves(s, moves, call, cfg) && Within(s, moves, call.c, cfg) && Alike(s.pcs[call.c], call.load, b)
    ensures Serves(s, moves, call.(load := b), cfg)
    decreases |moves|
  {
    if moves != [] {
      var t := Step(s, moves[0], cfg);
      hide Step;
      AlikeOn(s, moves[0], call.c, call.load, b, cfg);
      ServesAlike(t, moves[1..], call, b, cfg);
    }
  }

  /** So every run of a call reads as its record says. */
  lemma {:induction false} RecordServes(s: System, moves: seq<Move>, c: nat, own: CoreState, cfg: Config)
    requires |s.states| == |s.pcs| == |s.entered| && c < |s.states| && Within(s, moves, c, cfg)
    requires Reading(s.pcs[c]) ==> s.pcs[c].i < |s.states|
    ensures Serves(s, moves, Call(|s.states|, c, own, Record(s, moves, c, cfg)), cfg)
    decreases |moves|
  {
    if moves != [] {
      var t := Step(s, moves[0], cfg);
      var later, all := Record(t, moves[1..], c, cfg), Record(s, moves, c, cfg);
      if moves[0].core == c && Reading(s.pcs[c]) {
        KeyAdvances(s, moves[0], cfg);
      } else {
        StandsStill(s, moves[0], c, cfg);
      }
      RecordServes(t, moves[1..], c, own, cfg);
      assert Alike(t.pcs[c], later, all);
      hide Step, Record;
      ServesAlike(t, moves[1..], Call(|s.states|, c, own, later), all, cfg);
    }
  }

  lemma StandsStill(s: System, m: Move, c: nat, cfg: Config)
    requires |s.states| == |s.pcs| == |s.entered| && c < |s.states|
    requires if m.core == c then s.pcs[c].Failing? else true
    ensures var t := Step(s, m, cfg);
            |t.pcs| == |s.pcs| && if m.core == c then !Reading(t.pcs[c]) else t.pcs[c] == s.pcs[c]
  {
    hide Elapsed;
  }

  /**
   * In every interleaving the result of a barrier is the verdict on what its core read, at
   * whatever moments it read it.
   */
  lemma MachineVerdict(s: System, m: Move, moves: seq<Move>, cfg: Config) returns (load: Loads)
    requires |s.states| == |s.pcs| == |s.entered| && m.core < |s.states| && !InBarrier(s.pcs[m.core])
    requires m.act == StartupBarrier || m.act == ShutdownBarrier
    requires var t := Step(s, m, cfg);
             |t.states| == |t.pcs| == |t.entered| == |s.states| && Within(t, moves, m.core, cfg)
    ensures var own := if m.act == StartupBarrier then Ready else Shutdown;
            var call := Call(|s.states|, m.core, own, load);
            var t := Step(s, m, cfg);
            && |t.states| == |t.pcs| == |t.entered| && Serves(t, moves, call, cfg)
            && var pc := RunAll(t, moves, cfg).pcs[m.core];
               && (pc.Started? ==> exists p: nat :: StartupVerdict(call, cfg, pc.ok, p))
               && (pc.Stopped? ==> exists p: nat :: ShutdownVerdict(call, cfg, pc.ok, p))
  {
    hide Elapsed, Serves, RunAll, StartupVerdict, ShutdownVerdict, StartupHead, ShutdownHead, Record, Within;
    var own := if m.act == StartupBarrier then Ready else Shutdown;
    var t := Step(s, m, cfg);
    load := Record(t, moves, m.core, cfg);
    EntryReads(s, m, cfg);
    RecordServes(t, moves, m.core, own, cfg);
    ServedVerdict(s, m, moves, load, cfg);
  }

  lemma EntryReads(s: System, m: Move, cfg: Config)
    requires |s.states| == |s.pcs| == |s.entered| && m.core < |s.states| && !InBarrier(s.pcs[m.core])
    requires m.act == StartupBarrier || m.act == ShutdownBarrier
    ensures var pc := Step(s, m, cfg).pcs[m.core]; Reading(pc) ==> pc.i < |s.states|
  {
    hide Elapsed;
  }

  lemma ServedVerdict(s: System, m: Move, moves: seq<Move>, load: Loads, cfg: Config)
    requires |s.states| == |s.pcs| == |s.entered| && m.core < |s.states| && !InBarrier(s.pcs[m.core])
    requires m.act == StartupBarrier || m.act == ShutdownBarrier
    requires var own := if m.act == StartupBarrier then Ready else Shutdown;
             var t := Step(s, m, cfg);
             |t.states| == |t.pcs| == |t.entered| && Serves(t, moves, Call(|s.states|, m.core, own, load), cfg)
    ensures var own := if m.act == StartupBarrier then Ready else Shutdown;
            var call := Call(|s.states|, m.core, own, load);
            var pc := RunAll(Step(s, m, cfg), moves, cfg).pcs[m.core];
            && (pc.Started? ==> exists p: nat :: StartupVerdict(call, cfg, pc.ok, p))
            && (pc.Stopped? ==> exists p: nat :: ShutdownVerdict(call, cfg, pc.ok, p))
  {
    hide Elapsed, Serves, RunAll, StartupVerdict, ShutdownVerdict, StartupHead, ShutdownHead;
    var own := if m.act == StartupBarrier then Ready else Shutdown;
    var call := Call(|s.states|, m.core, own, load);
    var t := Step(s, m, cfg);
    StepSizes(s, m, cfg);
    if m.act == StartupBarrier {
      StartupHeadUnderway(t, call, cfg, 0, |s.past|);
    } else {
      ShutdownHeadUnderway(t, call, cfg, 0, |s.past|);
    }
    RunUnderway(t, moves, call, cfg);
  }

  // ----- the calls as written -----

  /** `Polling` means that the delays allowed for ran out first. */
  datatype Outcome = Returned(ok: bool) | Polling

  class MultiCoreSync {
    const states: array<CoreState>

    constructor (n: nat)
      ensures fresh(states) && states[..] == Fresh(n).states
    {
      states := new CoreState[n](_ => Unborn);
    }

    ghost function CallOf(coreId: nat, load: Loads): Call
      requires coreId < states.Length
      reads states
    {
      Call(states.Length, coreId, states[coreId], load)
    }

    /** The other cores' states change under way; the core's own is what it stored. */
    method Load(coreId: nat, load: Loads, k: nat, scan: nat, i: nat) returns (st: CoreState)
      requires coreId < states.Length
      ensures st == Seen(CallOf(coreId, load), k, scan, i)
    {
      st := if i == coreId then states[coreId] else load(k, scan, i);
    }

    method AnyError(coreId: nat, load: Loads, k: nat) returns (r: bool)
      requires coreId < states.Length
      ensures r <==> SeesError(CallOf(coreId, load), k)
    {
      hide Seen;
      for i := 0 to states.Length
        invariant forall j: nat :: j < i ==> Seen(CallOf(coreId, load), k, 0, j) != Error
      {
        var st := Load(coreId, load, k, 0, i);
        if st == Error {
          return true;
        }
      }
      r := false;
    }

    method AllInState(target: CoreState, coreId: nat, load: Loads, k: nat) returns (r: bool)
      requires coreId < states.Length
      ensures r <==> forall i: nat :: i < states.Length ==> Seen(CallOf(coreId, load), k, 1, i) == target
    {
      hide Seen;
      for i := 0 to states.Length
        invariant forall j: nat :: j < i ==> Seen(CallOf(coreId, load), k, 1, j) == target
      {
        var st := Load(coreId, load, k, 1, i);
        if st != target {
          return false;
        }
      }
      r := true;
    }

    method AllTerminated(coreId: nat, load: Loads, k: nat) returns (r: bool)
      requires coreId < states.Length
      ensures r <==> SeesDown(CallOf(coreId, load), k)
    {
      hide Seen;
      for i := 0 to states.Length
        invariant forall j: nat :: j < i ==> Down(Seen(CallOf(coreId, load), k, 0, j))
      {
        var st := Load(coreId, load, k, 0, i);
        if !Down(st) {
          return false;
        }
      }
      r := true;
    }

    /** The call for at most `limit` delays, for any timeout and interval, wrapping and zero included. */
    method RunStartup(coreId: nat, cfg: Config, load: Loads, limit: nat) returns (r: Outcome, polls: nat)
      requires coreId < states.Length
      modifies states
      ensures var call := Call(states.Length, coreId, Ready, load);
              && (r.Returned? ==> StartupVerdict(call, cfg, r.ok, polls))
              && (r.Polling? ==> polls == limit && StartupWaits(call, cfg, limit) && Elapsed(limit, cfg) < cfg.timeout)
      ensures states[..] == old(states[..])[coreId := if r == Returned(false) then Error else Ready]
    {
      hide Elapsed, SeesError, Seen;
      states[coreId] := Ready;
      ghost var call := Call(states.Length, coreId, Ready, load);
      polls := 0;
      var elapsed := 0;
      ElapsedNext(0, cfg);
      while elapsed < cfg.timeout && polls < limit
        invariant polls <= limit && elapsed == Elapsed(polls, cfg)
        invariant states[..] == old(states[..])[coreId := Ready] && CallOf(coreId, load) == call
        invariant StartupWaits(call, cfg, polls)
        decreases limit - polls
      {
        var error := AnyError(coreId, load, polls);
        if error {
          states[coreId] := Error;
          return Returned(false), polls;
        }
        var ready := AllInState(Ready, coreId, load, polls);
        if ready {
          assert SeesReady(CallOf(coreId, load), polls);
          return Returned(true), polls;
        }
        ElapsedNext(polls, cfg);
        elapsed := (elapsed + cfg.poll) % MILLIS;
        polls := polls + 1;
      }
      if elapsed < cfg.timeout {
        return Polling, polls;
      }
      states[coreId] := Error;
      r := Returned(false);
    }

    method RunShutdown(coreId: nat, cfg: Config, load: Loads, limit: nat) returns (r: Outcome, polls: nat)
      requires coreId < states.Length
      modifies states
      ensures var call := Call(states.Length, coreId, Shutdown, load);
              && (r.Returned? ==> ShutdownVerdict(call, cfg, r.ok, polls))
              && (r.Polling? ==> polls == limit && ShutdownWaits(call, cfg, limit) && Elapsed(limit, cfg) < cfg.timeout)
      ensures states[..] == old(states[..])[coreId := Shutdown]
    {
      hide Elapsed, Seen;
      states[coreId] := Shutdown;
      ghost var call := Call(states.Length, coreId, Shutdown, load);
      polls := 0;
      var elapsed := 0;
      ElapsedNext(0, cfg);
      while elapsed < cfg.timeout && polls < limit
        invariant polls <= limit && elapsed == Elapsed(polls, cfg)
        invariant states[..] == old(states[..])[coreId := Shutdown] && CallOf(coreId, load) == call
        invariant ShutdownWaits(call, cfg, polls)
        decreases limit - polls
      {
        var down := AllTerminated(coreId, load, polls);
        if down {
          return Returned(true), polls;
        }
        ElapsedNext(polls, cfg);
        elapsed := (elapsed + cfg.poll) % MILLIS;
        polls := polls + 1;
      }
      r := if elapsed < cfg.timeout then Polling else Returned(false);
    }
  }

  /** Adding the interval to the wrapped counter is wrapping the sum. */
  lemma ElapsedNext(k: nat, cfg: Config)
    ensures (Elapsed(k, cfg) + cfg.poll) % MILLIS == Elapsed(k + 1, cfg)
    ensures Elapsed(0, cfg) == 0
  {
    var x := k * cfg.poll;
    assert (k + 1) * cfg.poll == x + cfg.poll;
    Wraps(x, cfg.poll, MILLIS);
  }
}
