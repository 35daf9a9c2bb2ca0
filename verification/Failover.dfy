/**
 Choice of a database address at boot and by the failover monitor
 (backend_nest/src/main.ts and backend_nest/src/app.module.ts).
 */
module Failover {
  import opened Prelude

  type Ip = string

  /** What the probes answer: the TCP port, and the read-write query once connected. */
  datatype Health = Health(port: Ip -> bool, readWrite: Ip -> bool)

  predicate Open(health: Health, ip: Ip) {
    health.port(ip)
  }

  /** The logical check connects first, so it fails on a closed port. */
  predicate Writable(health: Health, ip: Ip) {
    health.port(ip) && health.readWrite(ip)
  }

  function FirstWritable(ips: seq<Ip>, health: Health): Option<Ip> {
    if ips == [] then None
    else if Writable(health, ips[0]) then Some(ips[0])
    else FirstWritable(ips[1..], health)
  }

  function FirstOpen(ips: seq<Ip>, health: Health): Option<Ip> {
    if ips == [] then None
    else if Open(health, ips[0]) then Some(ips[0])
    else FirstOpen(ips[1..], health)
  }

  /** The two-pass rule: the first writable address, else the first with an open port. */
  function TwoPass(ips: seq<Ip>, health: Health): Option<Ip> {
    var primary := FirstWritable(ips, health);
    if primary.Some? then primary else FirstOpen(ips, health)
  }

  /** The list without one address. */
  function Without(ips: seq<Ip>, ip: Ip): seq<Ip> {
    if ips == [] then []
    else if ips[0] == ip then Without(ips[1..], ip)
    else [ips[0]] + Without(ips[1..], ip)
  }

  lemma {:induction false} WithoutMembers(ips: seq<Ip>, ip: Ip)
    ensures forall x :: x in Without(ips, ip) <==> x in ips && x != ip
  {
    if ips != [] {
      WithoutMembers(ips[1..], ip);
      assert ips == [ips[0]] + ips[1..];
    }
  }

  lemma {:induction false} FirstWritableIsFirst(ips: seq<Ip>, health: Health)
    ensures FirstWritable(ips, health).None? <==> forall x | x in ips :: !Writable(health, x)
    ensures FirstWritable(ips, health).Some? ==>
              var ip := FirstWritable(ips, health).value;
              Writable(health, ip) && exists i :: 0 <= i < |ips| && ips[i] == ip && forall j | 0 <= j < i :: !Writable(health, ips[j])
  {
    if ips != [] {
      assert ips == [ips[0]] + ips[1..];
      if !Writable(health, ips[0]) {
        FirstWritableIsFirst(ips[1..], health);
        if FirstWritable(ips[1..], health).Some? {
          var i :| 0 <= i < |ips[1..]| && ips[1..][i] == FirstWritable(ips, health).value
                   && forall j | 0 <= j < i :: !Writable(health, ips[1..][j]);
          assert ips[i + 1] == FirstWritable(ips, health).value;
          assert forall j | 0 <= j < i + 1 :: j == 0 || ips[j] == ips[1..][j - 1];
        }
      }
    }
  }

  lemma {:induction false} FirstOpenIsFirst(ips: seq<Ip>, health: Health)
    ensures FirstOpen(ips, health).None? <==> forall x | x in ips :: !Open(health, x)
    ensures FirstOpen(ips, health).Some? ==> Open(health, FirstOpen(ips, health).value) && FirstOpen(ips, health).value in ips
  {
    if ips != [] {
      assert ips == [ips[0]] + ips[1..];
      FirstOpenIsFirst(ips[1..], health);
    }
  }

  // ---------- boot ----------

  /** The precheck at boot: one pass, stopping at the first writable address. */
  method BootPrecheck(ips: seq<Ip>, health: Health) returns (resolved: Option<Ip>)
    ensures resolved == TwoPass(ips, health)
  {
    var primaryIp: Option<Ip> := None;
    var fallbackIp: Option<Ip> := None;
    var i := 0;
    while i < |ips|
      invariant 0 <= i <= |ips|
      invariant FirstWritable(ips, health) == FirstWritable(ips[i..], health)
      invariant FirstOpen(ips, health) == if fallbackIp.Some? then fallbackIp else FirstOpen(ips[i..], health)
    {
      assert ips[i..][0] == ips[i] && ips[i..][1..] == ips[i + 1..];
      if Open(health, ips[i]) {
        if fallbackIp.None? {
          fallbackIp := Some(ips[i]);
        }
        if Writable(health, ips[i]) {
          primaryIp := Some(ips[i]);
          break;
        }
      }
      i := i + 1;
    }
    resolved := if primaryIp.Some? then primaryIp else fallbackIp;
  }

  // ---------- the monitor ----------

  /** The address in use: the one set before, else the first resolved one. */
  function Current(active: Option<Ip>, ips: seq<Ip>): Ip
    requires ips != []
  {
    if active.Some? then active.value else ips[0]
  }

  /** One monitor tick on the resolved addresses: the address set afterwards. */
  function Tick(active: Option<Ip>, ips: seq<Ip>, health: Health): Option<Ip> {
    if ips == [] || Writable(health, Current(active, ips)) then active
    else
      var pick := TwoPass(Without(ips, Current(active, ips)), health);
      if pick.Some? then pick else active
  }

  class FailoverMonitor {
    var activeIp: Option<Ip>

    constructor ()
      ensures activeIp == None
    {
      activeIp := None;
    }

    method RunTick(ips: seq<Ip>, health: Health)
      modifies this
      ensures activeIp == Tick(old(activeIp), ips, health)
    {
      if |ips| == 0 {
        return;
      }
      var current := if activeIp.Some? then activeIp.value else ips[0];
      if Writable(health, current) {
        return;
      }
      var newActiveIp := FindPrimary(ips, current, health);
      if newActiveIp.None? {
        newActiveIp := FindFallback(ips, current, health);
      }
      WithoutMembers(ips, current);
      TwoPassPicksBest(Without(ips, current), health);
      if newActiveIp.Some? && newActiveIp.value != current {
        activeIp := newActiveIp;
      }
    }

    method FindPrimary(ips: seq<Ip>, current: Ip, health: Health) returns (found: Option<Ip>)
      ensures found == FirstWritable(Without(ips, current), health)
    {
      var i := 0;
      while i < |ips|
        invariant 0 <= i <= |ips|
        invariant FirstWritable(Without(ips, current), health) == FirstWritable(Without(ips[i..], current), health)
      {
        assert ips[i..][0] == ips[i] && ips[i..][1..] == ips[i + 1..];
        if ips[i] != current && Open(health, ips[i]) && Writable(health, ips[i]) {
          assert Without(ips[i..], current)[0] == ips[i];
          return Some(ips[i]);
        }
        i := i + 1;
      }
      found := None;
    }

    method FindFallback(ips: seq<Ip>, current: Ip, health: Health) returns (found: Option<Ip>)
      ensures found == FirstOpen(Without(ips, current), health)
    {
      var i := 0;
      while i < |ips|
        invariant 0 <= i <= |ips|
        invariant FirstOpen(Without(ips, current), health) == FirstOpen(Without(ips[i..], current), health)
      {
        assert ips[i..][0] == ips[i] && ips[i..][1..] == ips[i + 1..];
        if ips[i] != current && Open(health, ips[i]) {
          assert Without(ips[i..], current)[0] == ips[i];
          return Some(ips[i]);
        }
        i := i + 1;
      }
      found := None;
    }
  }

  // ---------- stability and convergence ----------

  /** The rule picks something exactly when a port is open, and something writable whenever there is one. */
  lemma TwoPassPicksBest(ips: seq<Ip>, health: Health)
    ensures TwoPass(ips, health).None? <==> forall x | x in ips :: !Open(health, x)
    ensures TwoPass(ips, health).Some? ==> TwoPass(ips, health).value in ips && Open(health, TwoPass(ips, health).value)
    ensures TwoPass(ips, health).Some? ==>
              (Writable(health, TwoPass(ips, health).value) <==> exists x :: x in ips && Writable(health, x))
  {
    FirstWritableIsFirst(ips, health);
    FirstOpenIsFirst(ips, health);
  }

  /** The address stands first in the list among those with an open port that, if so asked, answer as writable. */
  ghost predicate FirstSuch(ips: seq<Ip>, health: Health, ip: Ip, writable: bool) {
    exists i :: 0 <= i < |ips| && ips[i] == ip && health.port(ip) && (writable ==> health.readWrite(ip))
                && forall j | 0 <= j < i :: !(health.port(ips[j]) && (writable ==> health.readWrite(ips[j])))
  }

  /** The rule picks the first writable address with an open port; without one, the first with an open port. */
  lemma TwoPassPicksFirst(ips: seq<Ip>, health: Health, ip: Ip)
    ensures TwoPass(ips, health) == Some(ip) <==>
              || FirstSuch(ips, health, ip, true)
              || (FirstSuch(ips, health, ip, false) && forall x | x in ips :: !(health.port(x) && health.readWrite(x)))
  {
    FirstWritableIsFirst(ips, health);
    FirstOpenIsEarliest(ips, health);
    if FirstSuch(ips, health, ip, true) {
      var i :| 0 <= i < |ips| && ips[i] == ip && health.port(ip) && health.readWrite(ip)
               && forall j | 0 <= j < i :: !(health.port(ips[j]) && (true ==> health.readWrite(ips[j])));
      assert Writable(health, ips[i]) && ips[i] in ips;
      assert forall j | 0 <= j < i :: !Writable(health, ips[j]);
    }
  }

  lemma {:induction false} FirstOpenIsEarliest(ips: seq<Ip>, health: Health)
    ensures FirstOpen(ips, health).None? <==> forall x | x in ips :: !health.port(x)
    ensures FirstOpen(ips, health).Some? ==> FirstSuch(ips, health, FirstOpen(ips, health).value, false)
    ensures forall ip | FirstSuch(ips, health, ip, false) :: FirstOpen(ips, health) == Some(ip)
  {
    if ips != [] {
      assert ips == [ips[0]] + ips[1..];
      if health.port(ips[0]) {
        assert FirstSuch(ips, health, ips[0], false);
      } else {
        FirstOpenIsEarliest(ips[1..], health);
        forall ip ensures FirstSuch(ips[1..], health, ip, false) <==> FirstSuch(ips, health, ip, false) {
          FirstSuchInTail(ips, health, ip);
        }
      }
    }
  }

  lemma FirstSuchInTail(ips: seq<Ip>, health: Health, ip: Ip)
    requires ips != [] && !health.port(ips[0])
    ensures FirstSuch(ips[1..], health, ip, false) <==> FirstSuch(ips, health, ip, false)
  {
    if FirstSuch(ips[1..], health, ip, false) {
      var i :| 0 <= i < |ips[1..]| && ips[1..][i] == ip && health.port(ip) && forall j | 0 <= j < i :: !health.port(ips[1..][j]);
      assert ips[i + 1] == ip && forall j | 0 <= j < i + 1 :: j == 0 || ips[j] == ips[1..][j - 1];
    }
    if FirstSuch(ips, health, ip, false) {
      var i :| 0 <= i < |ips| && ips[i] == ip && health.port(ip) && forall j | 0 <= j < i :: !health.port(ips[j]);
      assert ips[1..][i - 1] == ip && forall j | 0 <= j < i - 1 :: ips[1..][j] == ips[j + 1];
    }
  }

  /** A tick leaves a writable address alone; else it goes where the rule points among the other addresses, if anywhere. */
  lemma TickFollowsTheRule(active: Option<Ip>, ips: seq<Ip>, health: Health)
    ensures var current := match active case Some(ip) => ip case None => if ips != [] then ips[0] else "";
            var others := Without(ips, current);
            && (forall x :: x in others <==> x in ips && x != current)
            && (ips == [] || (health.port(current) && health.readWrite(current)) ==> Tick(active, ips, health) == active)
            && (ips != [] && !(health.port(current) && health.readWrite(current)) ==>
                  Tick(active, ips, health) == match TwoPass(others, health) case Some(ip) => Some(ip) case None => active)
  {
    WithoutMembers(ips, match active case Some(ip) => ip case None => if ips != [] then ips[0] else "");
  }

  /** A tick keeps the address exactly when it is writable or no other resolved address has an open port. */
  lemma TickKeepsExactlyWhen(active: Option<Ip>, ips: seq<Ip>, health: Health)
    requires ips != []
    ensures Tick(active, ips, health) == active <==>
              || Writable(health, Current(active, ips))
              || forall x | x in ips && x != Current(active, ips) :: !Open(health, x)
  {
    var others := Without(ips, Current(active, ips));
    WithoutMembers(ips, Current(active, ips));
    TwoPassPicksBest(others, health);
  }

  /** With a writable address resolved, one tick reaches a writable one. */
  lemma TickReachesWritable(active: Option<Ip>, ips: seq<Ip>, health: Health)
    requires exists x :: x in ips && Writable(health, x)
    ensures ips != [] && Writable(health, Current(Tick(active, ips, health), ips))
  {
    var others := Without(ips, Current(active, ips));
    WithoutMembers(ips, Current(active, ips));
    TwoPassPicksBest(others, health);
  }

  /** The address set after the first n ticks, for changing DNS answers and stable health. */
  function After(active: Option<Ip>, answers: seq<seq<Ip>>, health: Health, n: nat): Option<Ip>
    requires n <= |answers|
  {
    if n == 0 then active else Tick(After(active, answers, health, n - 1), answers[n - 1], health)
  }

  /**
   While health is stable and every DNS answer holds some writable address, the address in use is
   writable after every tick, and once a writable one is set no later tick leaves it.
   */
  lemma {:induction false} MonitorConverges(active: Option<Ip>, answers: seq<seq<Ip>>, health: Health, m: nat, n: nat)
    requires forall k | 0 <= k < |answers| :: exists x :: x in answers[k] && Writable(health, x)
    requires 1 <= m <= n <= |answers|
    ensures answers[n - 1] != [] && Writable(health, Current(After(active, answers, health, n), answers[n - 1]))
    ensures After(active, answers, health, m).Some? ==> After(active, answers, health, n) == After(active, answers, health, m)
    decreases n
  {
    TickReachesWritable(After(active, answers, health, n - 1), answers[n - 1], health);
    if m < n {
      MonitorConverges(active, answers, health, m, n - 1);
    }
  }

  /** The address set after n ticks, for one DNS answer and stable health. */
  function Ticks(active: Option<Ip>, ips: seq<Ip>, health: Health, n: nat): Option<Ip> {
    if n == 0 then active else Tick(Ticks(active, ips, health, n - 1), ips, health)
  }

  predicate HasWritable(ips: seq<Ip>, health: Health) {
    exists x :: x in ips && Writable(health, x)
  }

  /** Between two open addresses a tick goes back and forth. */
  lemma TickSwitches(ips: seq<Ip>, health: Health, a: Ip, b: Ip)
    requires !HasWritable(ips, health)
    requires FirstOpen(ips, health) == Some(a) && FirstOpen(Without(ips, a), health) == Some(b)
    ensures a != b
    ensures Tick(Some(a), ips, health) == Some(b) && Tick(Some(b), ips, health) == Some(a)
  {
    WithoutMembers(ips, a);
    WithoutMembers(ips, b);
    FirstOpenIsFirst(ips, health);
    FirstOpenIsFirst(Without(ips, a), health);
    FirstWritableIsFirst(Without(ips, a), health);
    FirstWritableIsFirst(Without(ips, b), health);
    FirstOpenWithout(ips, health, a, b);
  }

  /** From anywhere the first tick goes to the first open address, or to the second if it was on the first. */
  lemma FirstTick(active: Option<Ip>, ips: seq<Ip>, health: Health, a: Ip, b: Ip)
    requires ips != [] && !HasWritable(ips, health) && !Writable(health, Current(active, ips))
    requires FirstOpen(ips, health) == Some(a) && FirstOpen(Without(ips, a), health) == Some(b)
    ensures Tick(active, ips, health) == Some(if Current(active, ips) == a then b else a)
  {
    var current := Current(active, ips);
    WithoutMembers(ips, current);
    FirstWritableIsFirst(Without(ips, current), health);
    if current != a {
      FirstOpenWithout(ips, health, a, current);
    }
  }

  /**
   With no writable address but two open ones the monitor goes back and forth for ever between the first
   open address and the first open one besides it.
   */
  lemma {:induction false} MonitorFlaps(active: Option<Ip>, ips: seq<Ip>, health: Health, a: Ip, b: Ip, n: nat)
    requires ips != [] && !HasWritable(ips, health) && !Writable(health, Current(active, ips))
    requires FirstOpen(ips, health) == Some(a) && FirstOpen(Without(ips, a), health) == Some(b)
    requires n >= 1
    ensures a != b
    ensures Ticks(active, ips, health, n) == Some(if (n % 2 == 1) == (Current(active, ips) != a) then a else b)
  {
    TickSwitches(ips, health, a, b);
    FirstTick(active, ips, health, a, b);
    if n > 1 {
      MonitorFlaps(active, ips, health, a, b, n - 1);
    }
  }

  /** From the given tick on the address does not change any more. */
  ghost predicate SettledAt(active: Option<Ip>, ips: seq<Ip>, health: Health, n: nat) {
    forall m | m >= n :: Ticks(active, ips, health, m) == Ticks(active, ips, health, n)
  }

  predicate TwoOpen(ips: seq<Ip>, health: Health) {
    exists x, y :: x in ips && y in ips && x != y && Open(health, x) && Open(health, y)
  }

  /** A tick that changes nothing is followed by none that does. */
  lemma {:induction false} QuietStays(active: Option<Ip>, ips: seq<Ip>, health: Health, n: nat, m: nat)
    requires n <= m && Ticks(active, ips, health, n + 1) == Ticks(active, ips, health, n)
    ensures Ticks(active, ips, health, m) == Ticks(active, ips, health, n)
  {
    if n < m {
      QuietStays(active, ips, health, n, m - 1);
    }
  }

  lemma QuietSettles(active: Option<Ip>, ips: seq<Ip>, health: Health, n: nat)
    requires Ticks(active, ips, health, n + 1) == Ticks(active, ips, health, n)
    ensures SettledAt(active, ips, health, n)
  {
    forall m | m >= n ensures Ticks(active, ips, health, m) == Ticks(active, ips, health, n) {
      QuietStays(active, ips, health, n, m);
    }
  }

  lemma SecondOpen(ips: seq<Ip>, health: Health) returns (a: Ip, b: Ip)
    requires TwoOpen(ips, health)
    ensures FirstOpen(ips, health) == Some(a) && FirstOpen(Without(ips, a), health) == Some(b)
  {
    FirstOpenIsFirst(ips, health);
    a := FirstOpen(ips, health).value;
    WithoutMembers(ips, a);
    FirstOpenIsFirst(Without(ips, a), health);
    b := FirstOpen(Without(ips, a), health).value;
  }

  /**
   Under stable health the monitor settles, after one tick at the latest, exactly when the address in use
   or a resolved one is writable, or at most one resolved address is open.
   */
  lemma MonitorSettlesExactlyWhen(active: Option<Ip>, ips: seq<Ip>, health: Health)
    requires ips != []
    ensures (exists n: nat :: SettledAt(active, ips, health, n)) <==>
              Writable(health, Current(active, ips)) || HasWritable(ips, health) || !TwoOpen(ips, health)
    ensures (exists n: nat :: SettledAt(active, ips, health, n)) ==> SettledAt(active, ips, health, 1)
  {
    if Writable(health, Current(active, ips)) || HasWritable(ips, health) || !TwoOpen(ips, health) {
      SecondTickIsQuiet(active, ips, health);
      QuietSettles(active, ips, health, 1);
    } else {
      forall n: nat ensures !SettledAt(active, ips, health, n) {
        NeverSettled(active, ips, health, n);
      }
    }
  }

  lemma SettledIsQuiet(active: Option<Ip>, ips: seq<Ip>, health: Health, n: nat)
    requires SettledAt(active, ips, health, n)
    ensures Ticks(active, ips, health, n + 1) == Ticks(active, ips, health, n + 2)
  {
  }

  /** Two consecutive ticks of a flapping monitor differ. */
  lemma TicksDiffer(active: Option<Ip>, ips: seq<Ip>, health: Health, n: nat)
    requires ips != [] && !HasWritable(ips, health) && !Writable(health, Current(active, ips)) && TwoOpen(ips, health)
    requires n >= 1
    ensures Ticks(active, ips, health, n) != Ticks(active, ips, health, n + 1)
  {
    var a, b := SecondOpen(ips, health);
    MonitorFlaps(active, ips, health, a, b, n);
    TickSwitches(ips, health, a, b);
  }

  lemma NeverSettled(active: Option<Ip>, ips: seq<Ip>, health: Health, n: nat)
    requires ips != [] && !HasWritable(ips, health) && !Writable(health, Current(active, ips)) && TwoOpen(ips, health)
    ensures !SettledAt(active, ips, health, n)
  {
    TicksDiffer(active, ips, health, n + 1);
    if SettledAt(active, ips, health, n) {
      SettledIsQuiet(active, ips, health, n);
    }
  }

  lemma FirstTwoTicks(active: Option<Ip>, ips: seq<Ip>, health: Health)
    ensures Ticks(active, ips, health, 1) == Tick(active, ips, health)
    ensures Ticks(active, ips, health, 2) == Tick(Tick(active, ips, health), ips, health)
  {
    assert Ticks(active, ips, health, 0) == active;
  }

  lemma SecondTickIsQuiet(active: Option<Ip>, ips: seq<Ip>, health: Health)
    requires ips != []
    requires Writable(health, Current(active, ips)) || HasWritable(ips, health) || !TwoOpen(ips, health)
    ensures Ticks(active, ips, health, 2) == Ticks(active, ips, health, 1)
  {
    var once := Tick(active, ips, health);
    FirstTwoTicks(active, ips, health);
    TickKeepsExactlyWhen(once, ips, health);
    if HasWritable(ips, health) {
      TickReachesWritable(active, ips, health);
    } else if !Writable(health, Current(active, ips)) {
      WithoutMembers(ips, Current(active, ips));
      TwoPassPicksBest(Without(ips, Current(active, ips)), health);
      TickKeepsExactlyWhen(active, ips, health);
    }
  }

  lemma {:induction false} FirstOpenWithout(ips: seq<Ip>, health: Health, a: Ip, b: Ip)
    requires FirstOpen(ips, health) == Some(a) && b != a
    ensures FirstOpen(Without(ips, b), health) == Some(a)
  {
    FirstOpenIsFirst(ips, health);
    if ips[0] != a {
      FirstOpenWithout(ips[1..], health, a, b);
    }
  }

  // ---------- waiting for the database ----------

  /** Retries until an attempt succeeds; fails after `retry` failed attempts. */
  method WaitForDb(answers: nat -> bool, retry: int) returns (ok: bool, attempts: nat)
    ensures ok <==> exists i: nat :: i < retry && answers(i)
    ensures ok ==> attempts >= 1 && answers(attempts - 1) && forall i: nat | i < attempts - 1 :: !answers(i)
    ensures !ok ==> attempts == if retry > 0 then retry else 0
  {
    var left := retry;
    attempts := 0;
    while left > 0
      invariant left + attempts == retry
      invariant if retry > 0 then 0 <= left else attempts == 0
      invariant forall i: nat | i < attempts :: !answers(i)
    {
      attempts := attempts + 1;
      if answers(attempts - 1) {
        return true, attempts;
      }
      left := left - 1;
    }
    ok := false;
  }
}
