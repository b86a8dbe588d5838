/** The interrupt registry of hal/x86/interrupts/isr.c. Each vector is free, has
    one exclusive handler, or has a chain of handlers. */
module Interrupts {
  import opened Options

  const TOTAL := 47
  const FULL_CHAIN := 256
  const FLAG_END := 5
  const MAX_FLAGS := 6

  /** A handler's address. */
  type Handler = nat
  const NULL: Handler := 0

  type Count = x: int | 0 <= x < 0x100

  datatype HiRecord = HiRecord(initialized: bool, hasHandler: bool, handler: Handler, isChained: bool, chainProtect: bool)

  datatype ChainRecord = ChainRecord(initialized: bool, totalHandlers: Count, handlers: seq<Handler>, freeProtect: bool, chainLock: bool)

  // ---- The abstract machine of one vector ----

  datatype Mode = Free | Exclusive(handler: Handler) | Chain(handlers: seq<Handler>)

  /** A vector: its mode; whether chaining is forbidden, its chain may not be
      cleared, or no chain may be joined; and the handler field once an exclusive
      handler was ever registered. */
  datatype Vector = Vector(mode: Mode, protect: bool, keep: bool, lock: bool, saved: Option<Handler>)

  datatype Flags = Flags(chained: bool, keep: bool, lock: bool)

  datatype Command = Register(handler: Handler, flags: Flags) | Clear | ClearChain

  const UNUSED := Vector(Free, false, false, false, None)

  /** A chain counts its handlers in a byte. */
  function Joined(hs: seq<Handler>, h: Handler): (r: seq<Handler>)
  {
    if |hs| == FULL_CHAIN then [h] else hs + [h]
  }

  function Members(v: Vector): (hs: seq<Handler>) {
    if v.saved.Some? then [v.saved.value] else if v.mode.Chain? then v.mode.handlers else []
  }

  function Accepts(v: Vector, flags: Flags): (ok: bool)
  {
    if flags.chained then !v.protect && !v.lock else v.mode.Free?
  }

  function Step(v: Vector, c: Command): (r: Vector)
  {
    match c
    case Register(h, flags) =>
      if !Accepts(v, flags) then v
      else if flags.chained then
        v.(mode := Chain(Joined(Members(v), h)), keep := v.keep || flags.keep, lock := v.lock || flags.lock)
      else
        v.(mode := Exclusive(h), protect := true, saved := Some(h))
    case Clear =>
      if v.mode.Free? then v
      else
        var saved := if v.saved.Some? then Some(NULL) else None;
        if v.mode.Chain? && !v.keep then v.(mode := Free, protect := false, saved := saved)
        else if v.mode.Chain? then v.(saved := saved)
        else v.(mode := Free, saved := saved)
    case ClearChain =>
      if v.keep then v else v.(mode := Free, protect := false)
  }

  /** The handlers an interrupt runs, in order. */
  function Handlers(v: Vector): (hs: seq<Handler>) {
    match v.mode
    case Free => []
    case Exclusive(h) => [h]
    case Chain(hs) => hs
  }

  /** A command given to one vector. */
  datatype Call = Call(num: nat, command: Command)

  /** Vector n after a run of commands to any vectors. */
  function After(n: nat, calls: seq<Call>): (v: Vector)
  {
    if calls == [] then UNUSED
    else
      var last := calls[|calls| - 1];
      var v := After(n, calls[..|calls| - 1]);
      if last.num == n then Step(v, last.command) else v
  }

  // ---- Runs that clear through clearInterrupt only ----

  /** The machine a user has in mind: an exclusive handler protects its vector
      from chaining for good, a lock closes it to chains for good, and a kept
      chain stays for good. */
  datatype Plain = Plain(mode: Mode, protect: bool, keep: bool, lock: bool)

  function PlainStep(p: Plain, c: Command): (r: Plain)
  {
    match c
    case Register(h, flags) =>
      if flags.chained && !p.protect && !p.lock then
        Plain(Chain(Joined(if p.mode.Chain? then p.mode.handlers else [], h)), false, p.keep || flags.keep, p.lock || flags.lock)
      else if !flags.chained && p.mode.Free? then
        p.(mode := Exclusive(h), protect := true)
      else p
    case Clear => if p.keep then p else p.(mode := Free)
    case ClearChain => p
  }

  function PlainAfter(n: nat, calls: seq<Call>): (p: Plain)
  {
    if calls == [] then Plain(Free, false, false, false)
    else
      var last := calls[|calls| - 1];
      var p := PlainAfter(n, calls[..|calls| - 1]);
      if last.num == n then PlainStep(p, last.command) else p
  }

  ghost predicate NoDirectClear(n: nat, calls: seq<Call>)
  {
    forall i | 0 <= i < |calls| && calls[i].num == n :: !calls[i].command.ClearChain?
  }

  /** The registration would take over a handler left from exclusive use. */
  predicate Upgrades(v: Vector, c: Command)
  {
    c.Register? && c.flags.chained && Accepts(v, c.flags) && v.saved.Some?
  }

  /** What one vector's flags always satisfy. */
  ghost predicate Sound(v: Vector)
  {
    && (v.mode.Exclusive? ==> v.protect && v.saved == Some(v.mode.handler))
    && (v.mode.Chain? ==> 0 < |v.mode.handlers| <= FULL_CHAIN)
    && (v.keep ==> v.mode.Chain?)
    && (v.mode.Chain? ==> !v.protect)
  }

  lemma {:induction false} AfterSound(n: nat, calls: seq<Call>)
    ensures Sound(After(n, calls))
  {
    if calls != [] { AfterSound(n, calls[..|calls| - 1]); }
  }

  /** For every run without direct calls of clearChainedInterrupt, each vector is
      what the plain machine says, and no registration ever upgrades. */
  lemma {:induction false} PlainRuns(n: nat, calls: seq<Call>)
    requires NoDirectClear(n, calls)
    ensures var v, p := After(n, calls), PlainAfter(n, calls);
            && p == Plain(v.mode, v.protect, v.keep, v.lock)
            && (v.saved.Some? ==> v.protect)
            && forall c :: !Upgrades(v, c)
  {
    if calls != [] {
      AfterSound(n, calls[..|calls| - 1]);
      PlainRuns(n, calls[..|calls| - 1]);
    }
  }

  /** Locks and kept chains stay, whatever follows; so does protection from
      chaining, as long as no chain is cleared directly. A protected vector never
      has a chain again, a kept one always has one. */
  lemma {:induction false} FlagsStick(n: nat, calls: seq<Call>, k: nat)
    requires k <= |calls|
    ensures var v, r := After(n, calls[..k]), After(n, calls);
            && (v.lock ==> r.lock) && (v.keep ==> r.keep && r.mode.Chain?)
            && (v.protect && NoDirectClear(n, calls) ==> r.protect && !r.mode.Chain?)
  {
    AfterSound(n, calls);
    if k < |calls| {
      var front := calls[..|calls| - 1];
      assert front[..k] == calls[..k];
      FlagsStick(n, front, k);
    } else {
      assert calls[..k] == calls;
    }
  }

  /** A locked vector runs the handlers it had, or none, or one exclusive handler:
      no chain on it ever grows. */
  lemma LockedStep(v: Vector, c: Command)
    requires v.lock
    ensures var r := Step(v, c);
            r.mode == v.mode || r.mode.Free? || (v.mode.Free? && r.mode.Exclusive?)
  {
  }

  /** The handler of an earlier exclusive use is there to be taken over. */
  predicate Exposed(v: Vector)
  {
    v.saved.Some? && !v.protect
  }

  /** Some registration upgrades the vector. */
  predicate CanUpgrade(v: Vector)
  {
    Exposed(v) && !v.lock
  }

  lemma UpgradeMeans(v: Vector)
    ensures (exists c :: Upgrades(v, c)) <==> CanUpgrade(v)
  {
    if Exposed(v) && !v.lock {
      assert Upgrades(v, Register(NULL, Flags(true, false, false)));
    }
  }

  /** At boot no registration upgrades. */
  lemma NoUpgradeAtBoot(n: nat)
    ensures !CanUpgrade(After(n, []))
  {
  }

  lemma UpgradeLast(n: nat, calls: seq<Call>)
    requires calls != []
    ensures var m := |calls|;
            var v := After(n, calls[..m - 1]);
            !CanUpgrade(v) ==>
              (CanUpgrade(After(n, calls)) <==> calls[m - 1] == Call(n, ClearChain) && v.saved.Some? && !v.lock)
  {
    AfterSound(n, calls[..|calls| - 1]);
  }

  /** Through a whole run no registration could upgrade exactly when every direct
      call of clearChainedInterrupt meets a vector that never was exclusive or is
      locked. */
  lemma {:induction false} NeverUpgradesExactly(n: nat, calls: seq<Call>)
    ensures (forall k | 0 <= k <= |calls| :: !CanUpgrade(After(n, calls[..k])))
            <==> forall i | 0 <= i < |calls| && calls[i] == Call(n, ClearChain) ::
                   After(n, calls[..i]).saved.None? || After(n, calls[..i]).lock
  {
    hide CanUpgrade, After;
    var m := |calls|;
    assert calls[..m] == calls;
    if m == 0 {
      NoUpgradeAtBoot(n);
    } else {
      var front := calls[..m - 1];
      NeverUpgradesExactly(n, front);
      assert forall k | 0 <= k < m :: front[..k] == calls[..k];
      UpgradeLast(n, calls);
    }
  }

  /** It then revives a handler that was cleared: handler 7 was removed, yet runs. */
  lemma ClearedHandlerRuns()
    ensures var calls := [Call(3, Register(7, Flags(false, false, false))), Call(3, ClearChain), Call(3, Register(8, Flags(true, false, false)))];
            && Handlers(After(3, calls[..2])) == [] && Handlers(After(3, calls)) == [7, 8]
  {
    var a := Call(3, Register(7, Flags(false, false, false)));
    var b := Call(3, ClearChain);
    var c := Call(3, Register(8, Flags(true, false, false)));
    assert [a, b, c][..2] == [a, b] && [a, b][..1] == [a] && [a][..0] == [];
    assert After(3, []) == UNUSED;
    assert After(3, [a]) == Step(UNUSED, a.command);
    assert After(3, [a, b]) == Step(After(3, [a]), b.command);
    assert After(3, [a, b, c]) == Step(After(3, [a, b]), c.command);
  }

  // ---- Which handlers run ----

  /** What the last call of a run changed. An exclusive registration is accepted
      exactly when no handler runs, and then just its own does; a chained one
      exactly when the vector is not protected from it, and its handler then runs
      last, behind those of the chain if 256 are not yet in it and none was left
      from exclusive use. Clearing stops all handlers unless the chain is kept.
      What is refused, and a call to another vector, changes nothing. */
  lemma LastCall(n: nat, calls: seq<Call>)
    requires calls != []
    ensures var v, r, last := After(n, calls[..|calls| - 1]), After(n, calls), calls[|calls| - 1];
            var runs, now := Handlers(v), Handlers(r);
            if last.num != n then r == v
            else
              match last.command
              case Register(h, flags) =>
                if !flags.chained then
                  if runs == [] then now == [h] else r == v
                else if v.protect || v.lock then r == v
                else
                  && now != [] && now[|now| - 1] == h
                  && (v.saved.None? && |runs| < 256 ==> now == runs + [h])
                  && (v.saved.None? && |runs| == 256 ==> now == [h])
                  && (v.saved.Some? ==> now == [v.saved.value, h])
              case Clear => now == if v.keep then runs else []
              case ClearChain => now == if v.keep then runs else []
  {
    AfterSound(n, calls[..|calls| - 1]);
  }

  /** Call i registers a handler for exclusive use of vector n, and is accepted: no handler
      runs for n at the time. */
  ghost predicate TakesOver(n: nat, calls: seq<Call>, i: nat)
  {
    && i < |calls| && calls[i].num == n && calls[i].command.Register?
    && !calls[i].command.flags.chained && Handlers(After(n, calls[..i])) == []
  }

  ghost predicate NotClearedSince(n: nat, calls: seq<Call>, i: nat)
  {
    forall j | i < j < |calls| && calls[j].num == n :: calls[j].command.Register?
  }

  /** An exclusive handler runs, alone, from its registration on until the vector
      is cleared: whatever else is registered in between is refused. */
  lemma {:induction false} ExclusiveRuns(n: nat, calls: seq<Call>, i: nat)
    requires TakesOver(n, calls, i) && NotClearedSince(n, calls, i)
    ensures var h := calls[i].command.handler; Handlers(After(n, calls)) == [h] && After(n, calls).mode == Exclusive(h)
  {
    var front := calls[..|calls| - 1];
    AfterSound(n, front);
    if i < |front| {
      assert front[..i] == calls[..i];
      ExclusiveRuns(n, front, i);
    } else {
      assert front == calls[..i];
    }
  }

  /** A run in which no one asked for vector n. */
  lemma {:induction false} NobodyRuns(n: nat, calls: seq<Call>)
    requires forall j | 0 <= j < |calls| && calls[j].num == n :: !calls[j].command.Register?
    ensures After(n, calls) == UNUSED
  {
    if calls != [] { NobodyRuns(n, calls[..|calls| - 1]); }
  }

  // ---- What the flags of a vector stand for ----

  /** A chained registration that was accepted. */
  ghost predicate Joins(n: nat, calls: seq<Call>, i: nat)
  {
    && i < |calls| && calls[i].num == n && calls[i].command.Register? && calls[i].command.flags.chained
    && !After(n, calls[..i]).protect && !After(n, calls[..i]).lock
  }

  ghost predicate LockAsked(n: nat, calls: seq<Call>) { exists i: nat :: Joins(n, calls, i) && calls[i].command.flags.lock }

  ghost predicate KeepAsked(n: nat, calls: seq<Call>) { exists i: nat :: Joins(n, calls, i) && calls[i].command.flags.keep }

  ghost predicate TakenOver(n: nat, calls: seq<Call>)
  {
    exists i: nat :: i < |calls| && TakesOver(n, calls, i)
                     && forall j | i < j < |calls| :: calls[j] != Call(n, ClearChain)
  }

  lemma JoinsFront(n: nat, calls: seq<Call>)
    requires calls != []
    ensures var m := |calls| - 1;
            forall i: nat | i < m :: Joins(n, calls[..m], i) <==> Joins(n, calls, i)
  {
    var m := |calls| - 1;
    assert forall i: nat | i < m :: calls[..m][..i] == calls[..i];
  }

  lemma JoinsNext(n: nat, calls: seq<Call>)
    requires calls != []
    ensures var m := |calls| - 1;
            && (LockAsked(n, calls) <==> LockAsked(n, calls[..m]) || (Joins(n, calls, m) && calls[m].command.flags.lock))
            && (KeepAsked(n, calls) <==> KeepAsked(n, calls[..m]) || (Joins(n, calls, m) && calls[m].command.flags.keep))
  {
    hide After;
    JoinsFront(n, calls);
    hide Joins;
    var m := |calls| - 1;
    if LockAsked(n, calls[..m]) {
      var i: nat :| Joins(n, calls[..m], i) && calls[..m][i].command.flags.lock;
      assert i < m && Joins(n, calls, i);
    }
    if KeepAsked(n, calls[..m]) {
      var i: nat :| Joins(n, calls[..m], i) && calls[..m][i].command.flags.keep;
      assert i < m && Joins(n, calls, i);
    }
  }

  lemma TakesFront(n: nat, calls: seq<Call>)
    requires calls != []
    ensures var m := |calls| - 1;
            forall i: nat | i < m :: TakesOver(n, calls[..m], i) <==> TakesOver(n, calls, i)
  {
    var m := |calls| - 1;
    assert forall i: nat | i < m :: calls[..m][..i] == calls[..i];
  }

  lemma TakenOverNext(n: nat, calls: seq<Call>)
    requires calls != []
    ensures var m := |calls| - 1;
            var last := calls[m];
            TakenOver(n, calls) <==>
              (TakenOver(n, calls[..m]) && last != Call(n, ClearChain)) || TakesOver(n, calls, m)
  {
    hide After, Handlers;
    var m := |calls| - 1;
    var last := calls[m];
    TakesFront(n, calls);
    hide TakesOver;
    if TakenOver(n, calls[..m]) && last != Call(n, ClearChain) {
      var i: nat :| i < m && TakesOver(n, calls[..m], i)
                    && forall j | i < j < m :: calls[..m][j] != Call(n, ClearChain);
      assert forall j | i < j < m + 1 :: calls[j] != Call(n, ClearChain) by {
        assert forall j | i < j < m :: calls[..m][j] == calls[j];
      }
      assert TakesOver(n, calls, i);
    }
    if TakenOver(n, calls) {
      var i: nat :| i < |calls| && TakesOver(n, calls, i)
                    && forall j | i < j < |calls| :: calls[j] != Call(n, ClearChain);
      if i < m {
        assert TakesOver(n, calls[..m], i);
        assert forall j | i < j < m :: calls[..m][j] == calls[j];
      }
    }
  }

  /** A vector is locked, or its chain kept, exactly when a registration that joined
      a chain asked for it; and it is protected from chains exactly when it was
      taken for exclusive use and no chain was cleared on it directly since. */
  lemma {:induction false} FlagsMean(n: nat, calls: seq<Call>)
    ensures var v := After(n, calls);
            && (v.lock <==> LockAsked(n, calls)) && (v.keep <==> KeepAsked(n, calls)) && (v.protect <==> TakenOver(n, calls))
  {
    if calls != [] {
      var m := |calls| - 1;
      FlagsMean(n, calls[..m]);
      AfterSound(n, calls[..m]);
      JoinsFront(n, calls);
      TakenOverNext(n, calls);
      JoinsNext(n, calls);
      hide LockAsked, KeepAsked, TakenOver;
    }
  }

  // ---- How long a chain can get ----

  /** Joining a chain one handler at a time. */
  function Enlisted(hs: seq<Handler>): (r: seq<Handler>)
  {
    if hs == [] then [] else Joined(Enlisted(hs[..|hs| - 1]), hs[|hs| - 1])
  }

  lemma WrapsAt(n: nat)
    requires n > 1
    ensures var a, b := (n - 2) / FULL_CHAIN * FULL_CHAIN, (n - 1) / FULL_CHAIN * FULL_CHAIN;
            0 <= a < n - 1 && if n - 1 - a == FULL_CHAIN then b == n - 1 else a == b
  {
  }

  /** The chain is what was registered since the byte last wrapped. */
  lemma {:induction false} EnlistedIs(hs: seq<Handler>)
    requires hs != []
    ensures Enlisted(hs) == hs[(|hs| - 1) / FULL_CHAIN * FULL_CHAIN..]
  {
    var n := |hs|;
    if n > 1 {
      var front := hs[..n - 1];
      EnlistedIs(front);
      WrapsAt(n);
      assert front[(n - 2) / FULL_CHAIN * FULL_CHAIN..] == hs[(n - 2) / FULL_CHAIN * FULL_CHAIN..n - 1];
    }
  }

  lemma NoneEnlisted()
    ensures Enlisted([]) == []
  {
  }

  /** A chain runs every handler, in the order of registration, exactly when no
      more than 256 registered. */
  lemma ChainCompleteExactly(hs: seq<Handler>)
    ensures Enlisted(hs) == hs <==> |hs| <= FULL_CHAIN
  {
    hide Enlisted;
    NoneEnlisted();
    if hs != [] {
      EnlistedIs(hs);
      var k := (|hs| - 1) / FULL_CHAIN * FULL_CHAIN;
      assert 0 <= k < |hs| && (k == 0 <==> |hs| <= FULL_CHAIN);
      assert |hs[k..]| == |hs| - k;
    }
  }

  function Enlisting(n: nat, hs: seq<Handler>): (calls: seq<Call>)
  {
    seq(|hs|, i requires 0 <= i < |hs| => Call(n, Register(hs[i], Flags(true, false, false))))
  }

  lemma JoinOne(v: Vector, h: Handler)
    requires !v.protect && !v.lock && v.saved.None? && !v.mode.Exclusive?
    ensures var r := Step(v, Register(h, Flags(true, false, false)));
            Handlers(r) == Joined(Handlers(v), h) && !r.protect && !r.lock && r.saved.None? && !r.mode.Exclusive?
  {
  }

  /** Registering handlers for one chain, from the start. */
  lemma {:induction false} AfterEnlisting(n: nat, hs: seq<Handler>)
    ensures var v := After(n, Enlisting(n, hs));
            Handlers(v) == Enlisted(hs) && !v.protect && !v.lock && v.saved.None? && !v.mode.Exclusive?
  {
    if hs != [] {
      hide Step, Joined, Accepts, Members;
      var front, h := hs[..|hs| - 1], hs[|hs| - 1];
      AfterEnlisting(n, front);
      var calls := Enlisting(n, hs);
      assert calls[..|hs| - 1] == Enlisting(n, front);
      JoinOne(After(n, Enlisting(n, front)), h);
    }
  }

  // ---- The flags of a registration ----

  /** The flags the variable-argument loop reads: up to the end mark, six at most. */
  function Taken(flags: seq<int>, most: nat): (r: seq<int>)
    ensures |r| <= |flags| && |r| <= most && r == flags[..|r|]
  {
    if most == 0 || flags == [] then []
    else if flags[0] == FLAG_END then [flags[0]]
    else [flags[0]] + Taken(flags[1..], most - 1)
  }

  /** The argument list does not end before the loop does. */
  predicate Enough(flags: seq<int>) { |flags| >= MAX_FLAGS || FLAG_END in flags }

  function FlagsOf(flags: seq<int>): (f: Flags) {
    var t := Taken(flags, MAX_FLAGS);
    Flags(1 in t, 3 in t, 4 in t)
  }

  /** Flag x is among the first six, and in front of the first end mark. */
  predicate Given(flags: seq<int>, x: int, most: nat)
  {
    exists i :: 0 <= i < |flags| && i < most && flags[i] == x && FLAG_END !in flags[..i]
  }

  lemma GivenBehind(flags: seq<int>, x: int, most: nat)
    requires flags != [] && most > 0 && flags[0] != x
    ensures Given(flags, x, most) ==> flags[0] != FLAG_END && Given(flags[1..], x, most - 1)
  {
    if Given(flags, x, most) {
      var i :| 0 <= i < |flags| && i < most && flags[i] == x && FLAG_END !in flags[..i];
      assert flags[..i] == [flags[0]] + flags[1..][..i - 1] && flags[1..][i - 1] == x;
    }
  }

  lemma GivenInFront(flags: seq<int>, x: int, most: nat)
    requires flags != [] && most > 0
    ensures flags[0] == x || (flags[0] != FLAG_END && Given(flags[1..], x, most - 1)) ==> Given(flags, x, most)
  {
    if flags[0] == x {
      assert FLAG_END !in flags[..0];
    } else if flags[0] != FLAG_END && Given(flags[1..], x, most - 1) {
      var i :| 0 <= i < |flags[1..]| && i < most - 1 && flags[1..][i] == x && FLAG_END !in flags[1..][..i];
      assert flags[i + 1] == x && flags[..i + 1] == [flags[0]] + flags[1..][..i];
    }
  }

  lemma {:induction false} TakenHas(flags: seq<int>, most: nat, x: int)
    ensures x in Taken(flags, most) <==> Given(flags, x, most)
  {
    if most > 0 && flags != [] {
      if flags[0] != x { GivenBehind(flags, x, most); }
      GivenInFront(flags, x, most);
      TakenHas(flags[1..], most - 1, x);
      hide Given;
    }
  }

  /** 1 asks for a chain, 3 to keep it, 4 to lock it. */
  lemma FlagsAre(flags: seq<int>)
    ensures FlagsOf(flags) == Flags(Given(flags, 1, 6), Given(flags, 3, 6), Given(flags, 4, 6))
  {
    TakenHas(flags, 6, 1);
    TakenHas(flags, 6, 3);
    TakenHas(flags, 6, 4);
  }

  /** All of a list of flags is read exactly when it has at most six. */
  lemma {:induction false} TakenExactly(flags: seq<int>, most: nat)
    requires FLAG_END !in flags
    ensures Taken(flags + [FLAG_END], most) == if |flags| < most then flags + [FLAG_END] else flags[..most]
  {
    if most > 0 && flags != [] {
      assert (flags + [FLAG_END])[1..] == flags[1..] + [FLAG_END];
      TakenExactly(flags[1..], most - 1);
    }
  }

  lemma TakenStep(flags: seq<int>, k: nat, most: nat)
    requires k < |flags| && most > 0
    ensures Taken(flags[k..], most) == [flags[k]] + if flags[k] == FLAG_END then [] else Taken(flags[k + 1..], most - 1)
  {
    assert flags[k..][1..] == flags[k + 1..];
  }

  lemma NoneLeft(flags: seq<int>)
    ensures Taken(flags, 0) == []
  {
  }

  /** k flags were read, and these are they; unless that was all, more follow. */
  ghost predicate Reading(flags: seq<int>, k: nat, ended: bool, seen: seq<int>)
  {
    if ended then Taken(flags, MAX_FLAGS) == seen
    else k < MAX_FLAGS && k <= |flags| && FLAG_END !in flags[..k]
         && Taken(flags, MAX_FLAGS) == seen + Taken(flags[k..], MAX_FLAGS - k)
  }

  lemma ReadOne(flags: seq<int>, k: nat, seen: seq<int>)
    requires Enough(flags) && Reading(flags, k, false, seen)
    ensures k < |flags| && Reading(flags, k + 1, flags[k] == FLAG_END || k + 1 == MAX_FLAGS, seen + [flags[k]])
  {
    hide Taken;
    assert flags[..|flags|] == flags;
    TakenStep(flags, k, MAX_FLAGS - k);
    NoneLeft(flags[k + 1..]);
    assert flags[..k + 1] == flags[..k] + [flags[k]];
    assert seen + ([flags[k]] + Taken(flags[k + 1..], MAX_FLAGS - k - 1)) == seen + [flags[k]] + Taken(flags[k + 1..], MAX_FLAGS - k - 1);
    assert seen + ([flags[k]] + []) == seen + [flags[k]];
  }

  /** Flag 2 is accepted too, but every exclusive registration has its effect. */
  method NoteFlag(f: Flags, flag: int) returns (g: Flags)
    ensures g == Flags(f.chained || flag == 1, f.keep || flag == 3, f.lock || flag == 4)
  {
    g := f;
    if flag == 1 {
      g := g.(chained := true);
    } else if flag == 3 {
      g := g.(keep := true);
    } else if flag == 4 {
      g := g.(lock := true);
    }
  }

  predicate Noted(f: Flags, seen: seq<int>)
  {
    f == Flags(1 in seen, 3 in seen, 4 in seen)
  }

  lemma ReadNone(flags: seq<int>)
    ensures Reading(flags, 0, false, [])
  {
    hide Taken;
    assert flags[0..] == flags;
  }

  lemma AllRead(flags: seq<int>, k: nat, seen: seq<int>)
    requires Reading(flags, k, true, seen)
    ensures Taken(flags, MAX_FLAGS) == seen
  {
  }

  /** The loop over the variable arguments; flags not given count as false. */
  method ReadFlags(flags: seq<int>) returns (f: Flags)
    requires Enough(flags)
    ensures f == FlagsOf(flags)
  {
    hide Taken, Enough, Reading;
    f := Flags(false, false, false);
    var totalFlags, flag := 0, 0;
    ghost var seen: seq<int> := [];
    ReadNone(flags);
    while flag != FLAG_END
      invariant flag == FLAG_END || totalFlags < MAX_FLAGS
      invariant Reading(flags, totalFlags, flag == FLAG_END, seen) && Noted(f, seen)
      decreases MAX_FLAGS - totalFlags, flag != FLAG_END
    {
      ReadOne(flags, totalFlags, seen);
      flag := flags[totalFlags];
      f := NoteFlag(f, flag);
      assert Noted(f, seen + [flag]);
      seen := seen + [flag];
      totalFlags := totalFlags + 1;
      if totalFlags > 5 {
        break;
      }
    }
    assert Taken(flags, MAX_FLAGS) == seen by { AllRead(flags, totalFlags, seen); }
  }

  // ---- The registry ----

  /** Stores a handler at an index of a list that grows as needed. */
  function Put(hs: seq<Handler>, i: nat, h: Handler): (r: seq<Handler>)
    requires i <= |hs|
    ensures i < |r| && |hs| <= |r| && r[..i + 1] == hs[..i] + [h]
  {
    if i < |hs| then hs[i := h] else hs + [h]
  }

  /** What every pair of records satisfies. */
  ghost predicate Fits(h: HiRecord, c: ChainRecord)
  {
    && h.isChained == c.initialized
    && (c.initialized ==> c.totalHandlers < |c.handlers|)
    && (!c.initialized ==> c.totalHandlers == 0)
    && (h.hasHandler && !h.isChained ==> h.chainProtect && h.initialized)
    && (c.freeProtect ==> h.isChained)
  }

  function Abstract(h: HiRecord, c: ChainRecord): (v: Vector)
    requires c.initialized ==> c.totalHandlers < |c.handlers|
    requires h.isChained == c.initialized
  {
    Vector(if h.isChained then Chain(c.handlers[..c.totalHandlers + 1]) else if h.hasHandler then Exclusive(h.handler) else Free,
           h.chainProtect, c.freeProtect, c.chainLock, if h.initialized then Some(h.handler) else None)
  }

  /** Where the next member of a chain goes, once an upgrade has put the old
      handler first. */
  lemma StoredBehind(h: HiRecord, c: ChainRecord, t: nat, hs: seq<Handler>, handler: Handler)
    requires Fits(h, c)
    requires hs == if h.initialized then Put(c.handlers, 0, h.handler) else c.handlers
    requires t == if h.initialized then 1 else if c.initialized then (c.totalHandlers + 1) % 0x100 else 0
    ensures t <= |hs| && hs[..t] + [handler] == Joined(Members(Abstract(h, c)), handler)
  {
    if h.initialized {
      assert hs[..1] == [h.handler];
    } else if c.initialized && c.totalHandlers == 0xFF {
      assert |c.handlers[..c.totalHandlers + 1]| == FULL_CHAIN;
    }
  }

  class Registry {
    const hi: array<HiRecord>
    const chains: array<ChainRecord>

    ghost predicate Valid()
      reads hi, chains
    {
      hi.Length == chains.Length == TOTAL && forall n | 0 <= n < TOTAL :: Fits(hi[n], chains[n])
    }

    /** The state of a vector, as the abstract machine sees it. */
    ghost function At(n: nat): (v: Vector)
      requires Valid() && n < TOTAL
      reads hi, chains
    {
      Abstract(hi[n], chains[n])
    }

    ghost predicate OthersKept(n: nat, h: seq<HiRecord>, c: seq<ChainRecord>)
      requires hi.Length == chains.Length == |h| == |c|
      reads hi, chains
    {
      forall k | 0 <= k < hi.Length && k != n :: hi[k] == h[k] && chains[k] == c[k]
    }

    constructor ()
      ensures Valid() && fresh(hi) && fresh(chains) && forall n | 0 <= n < TOTAL :: At(n) == UNUSED
    {
      hi := new HiRecord[TOTAL](_ => HiRecord(false, false, NULL, false, false));
      chains := new ChainRecord[TOTAL](_ => ChainRecord(false, 0, [], false, false));
    }

    /** Puts a handler behind the members of the chain. */
    method StoreMember(num: Count, handler: Handler)
      requires Valid() && num < TOTAL && !hi[num].chainProtect && !chains[num].chainLock
      modifies hi, chains
      ensures Valid() && OthersKept(num, old(hi[..]), old(chains[..]))
      ensures At(num) == old(At(num)).(mode := Chain(Joined(Members(old(At(num))), handler)))
    {
      hide Joined, Members, Put;
      ghost var h0, c0 := hi[num], chains[num];
      hi[num] := hi[num].(hasHandler := true);
      hi[num] := hi[num].(isChained := true);
      if hi[num].initialized {
        chains[num] := chains[num].(handlers := Put(chains[num].handlers, 0, hi[num].handler));
        chains[num] := chains[num].(totalHandlers := 0);
        chains[num] := chains[num].(initialized := true);
      }
      if !chains[num].initialized {
        chains[num] := chains[num].(initialized := true);
        chains[num] := chains[num].(totalHandlers := 0);
      } else {
        chains[num] := chains[num].(totalHandlers := (chains[num].totalHandlers + 1) % 0x100);
      }
      ghost var t, hs := chains[num].totalHandlers, chains[num].handlers;
      chains[num] := chains[num].(handlers := Put(chains[num].handlers, chains[num].totalHandlers, handler));
      StoredBehind(h0, c0, t, hs, handler);
    }

    method JoinChain(num: Count, handler: Handler, f: Flags) returns (r: int)
      requires Valid() && num < TOTAL && f.chained
      modifies hi, chains
      ensures Valid()
      ensures r == (if Accepts(old(At(num)), f) then 0 else 1)
      ensures At(num) == Step(old(At(num)), Register(handler, f)) && OthersKept(num, old(hi[..]), old(chains[..]))
    {
      if hi[num].hasHandler && !hi[num].isChained && hi[num].chainProtect {
        return 1;
      }
      if hi[num].chainProtect || chains[num].chainLock {
        return 1;
      }
      StoreMember(num, handler);
      if f.keep {
        chains[num] := chains[num].(freeProtect := true);
      }
      if f.lock {
        chains[num] := chains[num].(chainLock := true);
      }
      return 0;
    }

    method TakeExclusive(num: Count, handler: Handler, f: Flags) returns (r: int)
      requires Valid() && num < TOTAL && !f.chained
      modifies hi
      ensures Valid()
      ensures r == (if Accepts(old(At(num)), f) then 0 else 1)
      ensures At(num) == Step(old(At(num)), Register(handler, f)) && OthersKept(num, old(hi[..]), old(chains[..]))
    {
      if hi[num].hasHandler || hi[num].isChained {
        return 1;
      }
      hi[num] := HiRecord(true, true, handler, false, hi[num].chainProtect);
      // The source's test assigns: the flag is always set.
      hi[num] := hi[num].(chainProtect := true);
      return 0;
    }

    /** registerInterruptHandler: 0 when the handler was registered, else 1. */
    method RegisterHandler(num: Count, handler: Handler, flags: seq<int>) returns (r: int)
      requires Valid() && num != TOTAL && Enough(flags)
      modifies hi, chains
      ensures Valid()
      ensures num > TOTAL ==> r == 1 && hi[..] == old(hi[..]) && chains[..] == old(chains[..])
      ensures num < TOTAL ==>
                && r == (if Accepts(old(At(num)), FlagsOf(flags)) then 0 else 1)
                && At(num) == Step(old(At(num)), Register(handler, FlagsOf(flags)))
                && OthersKept(num, old(hi[..]), old(chains[..]))
    {
      if num > TOTAL {
        return 1;
      }
      var f := ReadFlags(flags);
      hide Enough, FlagsOf;
      if f.chained {
        r := JoinChain(num, handler, f);
      } else {
        r := TakeExclusive(num, handler, f);
      }
    }

    method ClearChainedInterrupt(num: Count) returns (r: int)
      requires Valid() && num < TOTAL
      modifies hi, chains
      ensures Valid() && r == (if old(At(num)).keep then 1 else 0)
      ensures At(num) == Step(old(At(num)), ClearChain) && OthersKept(num, old(hi[..]), old(chains[..]))
      ensures !old(At(num)).keep ==> hi[num] == old(hi[num]).(hasHandler := false, isChained := false, chainProtect := false)
      ensures old(At(num)).keep ==> hi[num] == old(hi[num])
    {
      if chains[num].freeProtect {
        return 1;
      }
      hi[num] := hi[num].(hasHandler := false, isChained := false, chainProtect := true);
      ghost var hi1 := hi[..];
      if chains[num].totalHandlers == 0 {
        chains[num] := chains[num].(handlers := []);
      }
      while chains[num].totalHandlers != 0
        invariant hi[..] == hi1
        invariant chains[num].totalHandlers != 0 ==> chains[num].totalHandlers < |chains[num].handlers|
        invariant chains[num] == old(chains[num]).(handlers := chains[num].handlers, totalHandlers := chains[num].totalHandlers)
        invariant forall k | 0 <= k < TOTAL && k != num :: chains[k] == old(chains[k])
        decreases chains[num].totalHandlers
      {
        var last := chains[num].totalHandlers;
        chains[num] := chains[num].(handlers := Put(chains[num].handlers, last, NULL));
        if last - 1 == 0 {
          chains[num] := chains[num].(handlers := []);
        }
        chains[num] := chains[num].(totalHandlers := last - 1);
      }
      chains[num] := chains[num].(initialized := false);
      hi[num] := hi[num].(chainProtect := false);
      return 0;
    }

    /** clearInterrupt, which reports success even when the chain is kept. */
    method ClearInterrupt(num: Count) returns (r: int)
      requires Valid() && num < TOTAL
      modifies hi, chains
      ensures Valid() && r == 0 && At(num) == Step(old(At(num)), Clear) && OthersKept(num, old(hi[..]), old(chains[..]))
    {
      if hi[num].isChained {
        var _ := ClearChainedInterrupt(num);
      } else if !hi[num].hasHandler {
        return 0;
      }
      hi[num] := hi[num].(hasHandler := false);
      hi[num] := hi[num].(handler := NULL);
      return 0;
    }

    method RunChain(num: Count) returns (ran: seq<Handler>)
      requires Valid() && num < TOTAL && hi[num].isChained
      ensures ran == chains[num].handlers[..chains[num].totalHandlers + 1]
    {
      var c := chains[num];
      if c.totalHandlers == 0 {
        return [c.handlers[0]];
      }
      ran := [];
      for i := 0 to c.totalHandlers + 1
        invariant ran == c.handlers[..i]
      {
        ran := ran + [c.handlers[i]];
      }
    }

    /** isr_handler: runs the handlers of a vector. */
    method Dispatch(num: Count) returns (ran: seq<Handler>)
      requires Valid() && num < TOTAL
      ensures ran == Handlers(At(num))
      ensures hi[num].isChained ==> chains[num].totalHandlers < |chains[num].handlers| && ran == chains[num].handlers[..chains[num].totalHandlers + 1]
      ensures !hi[num].isChained ==> ran == if hi[num].hasHandler then [hi[num].handler] else []
    {
      if hi[num].isChained {
        ran := RunChain(num);
      } else if hi[num].hasHandler {
        ran := [hi[num].handler];
      } else {
        ran := [];
      }
    }
  }

  // ---- Whole runs ----

  /** A call as its caller writes it. */
  datatype Request = Ask(num: Count, handler: Handler, flags: seq<int>) | Release(num: Count) | ReleaseChain(num: Count)

  ghost predicate Proper(q: Request) {
    match q
    case Ask(num, _, flags) => num < TOTAL && Enough(flags)
    case Release(num) => num < TOTAL
    case ReleaseChain(num) => num < TOTAL
  }

  function Meaning(q: Request): (c: Call) {
    match q
    case Ask(num, h, flags) => Call(num, Register(h, FlagsOf(flags)))
    case Release(num) => Call(num, Clear)
    case ReleaseChain(num) => Call(num, ClearChain)
  }

  function Meanings(qs: seq<Request>): (calls: seq<Call>)
  {
    seq(|qs|, i requires 0 <= i < |qs| => Meaning(qs[i]))
  }

  /** What each request stands for. */
  lemma RequestsMean(qs: seq<Request>, i: nat)
    requires i < |qs|
    ensures var c := Meanings(qs)[i];
            && |Meanings(qs)| == |qs| && c.num == qs[i].num
            && (qs[i].Ask? ==> c.command == Register(qs[i].handler, Flags(Given(qs[i].flags, 1, 6), Given(qs[i].flags, 3, 6), Given(qs[i].flags, 4, 6))))
            && (qs[i].Release? ==> c.command == Clear) && (qs[i].ReleaseChain? ==> c.command == ClearChain)
  {
    hide FlagsOf, Given;
    if qs[i].Ask? { FlagsAre(qs[i].flags); }
  }

  /** Request i is the first for the vector, without the flag for chains, and the
      vector is not cleared after it. */
  ghost predicate OnlyExclusive(qs: seq<Request>, num: Count, i: nat, h: Handler, flags: seq<int>)
  {
    && i < |qs| && qs[i] == Ask(num, h, flags) && !Given(flags, 1, 6)
    && (forall j | 0 <= j < i :: !(qs[j].Ask? && qs[j].num == num))
    && (forall j | i < j < |qs| && qs[j].num == num :: qs[j].Ask?)
  }

  lemma FirstExclusiveRuns(qs: seq<Request>, num: Count, i: nat, h: Handler, flags: seq<int>)
    requires OnlyExclusive(qs, num, i, h, flags)
    ensures Handlers(After(num, Meanings(qs))) == [h]
  {
    hide FlagsOf;
    FlagsAre(flags);
    var calls := Meanings(qs);
    NobodyRuns(num, calls[..i]);
    ExclusiveRuns(num, calls, i);
  }

  lemma NoneAskedNoneRuns(qs: seq<Request>, num: Count)
    requires forall q | q in qs :: !(q.Ask? && q.num == num)
    ensures Handlers(After(num, Meanings(qs))) == []
  {
    hide FlagsOf;
    NobodyRuns(num, Meanings(qs));
  }

  /** After any run of calls from boot, an interrupt runs just the handlers that
      the abstract machine of its own vector has, in order. */
  method RunThenDispatch(qs: seq<Request>, num: Count) returns (ran: seq<Handler>)
    requires num < TOTAL && forall q | q in qs :: Proper(q)
    ensures ran == Handlers(After(num, Meanings(qs)))
    ensures forall i: nat, h: Handler, flags | OnlyExclusive(qs, num, i, h, flags) :: ran == [h]
    ensures (forall q | q in qs :: !(q.Ask? && q.num == num)) ==> ran == []
  {
    hide FlagsOf, Enough, Step, Accepts, Handlers, OnlyExclusive;
    var registry := new Registry();
    var i := 0;
    while i < |qs|
      invariant 0 <= i <= |qs| && registry.Valid() && fresh(registry.hi) && fresh(registry.chains)
      invariant forall n | 0 <= n < TOTAL :: registry.At(n) == After(n, Meanings(qs[..i]))
    {
      assert qs[i] in qs && Proper(qs[i]);
      match qs[i] {
        case Ask(n, h, flags) => var _ := registry.RegisterHandler(n, h, flags);
        case Release(n) => var _ := registry.ClearInterrupt(n);
        case ReleaseChain(n) => var _ := registry.ClearChainedInterrupt(n);
      }
      assert Meanings(qs[..i + 1])[..i] == Meanings(qs[..i]);
      i := i + 1;
    }
    assert qs[..|qs|] == qs;
    ran := registry.Dispatch(num);
    forall i: nat, h: Handler, flags | OnlyExclusive(qs, num, i, h, flags) ensures ran == [h] {
      FirstExclusiveRuns(qs, num, i, h, flags);
    }
    if forall q | q in qs :: !(q.Ask? && q.num == num) {
      NoneAskedNoneRuns(qs, num);
    }
  }
}
