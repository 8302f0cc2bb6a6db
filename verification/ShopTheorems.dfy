/** What the barbershop guarantees after every schedule of any number of threads. */
module ShopTheorems {
  import opened ShopProtocol
  import opened ShopInvariant

  /** Customers whose next call is one of lo..hi. */
  function CustomersAt(cs: seq<nat>, lo: nat, hi: nat): nat {
    if cs == [] then 0
    else CustomersAt(cs[..|cs| - 1], lo, hi) + if lo <= cs[|cs| - 1] <= hi then 1 else 0
  }

  /** Barbers whose next call is one of lo..hi. */
  function BarbersAt(bs: seq<nat>, lo: nat, hi: nat): nat {
    if bs == [] then 0
    else BarbersAt(bs[..|bs| - 1], lo, hi) + if lo <= bs[|bs| - 1] % 7 <= hi then 1 else 0
  }

  lemma {:induction false} CustomersAtIsDifference(cs: seq<nat>, lo: nat, hi: nat)
    requires 1 <= lo <= hi
    ensures CustomersAt(cs, lo, hi) + CustomersPast(cs, hi) == CustomersPast(cs, lo - 1)
    decreases |cs|
  {
    if cs != [] {
      CustomersAtIsDifference(cs[..|cs| - 1], lo, hi);
    }
  }

  lemma {:induction false} BarbersAtIsDifference(bs: seq<nat>, lo: nat, hi: nat)
    requires 1 <= lo <= hi <= 6
    ensures BarbersAt(bs, lo, hi) + BarberPasses(bs, hi) == BarberPasses(bs, lo - 1)
    decreases |bs|
  {
    if bs != [] {
      BarbersAtIsDifference(bs[..|bs| - 1], lo, hi);
    }
  }

  ghost predicate Descending(t: seq<nat>) {
    forall k :: 0 < k < |t| ==> t[k - 1] >= t[k]
  }

  lemma BarberTallyDescends(bs: seq<nat>)
    ensures Descending(BarberTally(bs))
  {
    BarberOrder(bs);
    forall k | 0 < k < 7
      ensures BarberTally(bs)[k - 1] >= BarberTally(bs)[k]
    {
      assert BarberTally(bs)[k - 1] == BarberPasses(bs, k - 1) && BarberTally(bs)[k] == BarberPasses(bs, k);
    }
  }

  lemma CustomerTallyDescends(cs: seq<nat>)
    ensures Descending(CustomerTally(cs))
  {
    CustomerOrder(cs);
    forall k | 0 < k < 9
      ensures CustomerTally(cs)[k - 1] >= CustomerTally(cs)[k]
    {
      assert CustomerTally(cs)[k - 1] == CustomersPast(cs, k - 1) && CustomerTally(cs)[k] == CustomersPast(cs, k);
    }
  }

  lemma TalliesDescend(c: Config, s: State)
    requires Balanced(c, s)
    ensures Descending(BarberTally(s.barbers)) && Descending(CustomerTally(s.customers))
    ensures BarberPasses(s.barbers, 0) <= BarberPasses(s.barbers, 6) + c.barbers
    ensures CustomersPast(s.customers, 0) <= c.customers
    ensures var b := BarberTally(s.barbers);
            Sum(s.barbers) == b[0] + b[1] + b[2] + b[3] + b[4] + b[5] + b[6]
    ensures var p := CustomerTally(s.customers);
            Sum(s.customers) == p[0] + p[1] + p[2] + p[3] + p[4] + p[5] + p[6] + p[7] + p[8]
  {
    BarberTallyDescends(s.barbers);
    CustomerTallyDescends(s.customers);
    BarberCounts(s.barbers);
    BarberOrder(s.barbers);
    CustomerCounts(s.customers);
    CustomerOrder(s.customers);
  }

  /** At most `customers_shop_max` customers are in the shop, at most the sofa's size sit on it,
      and at most one barber is at the cash desk, whatever the schedule. */
  lemma {:induction false} CapacitySafety(c: Config, schedule: seq<Thread>)
    ensures var s := Exec(Init(c), schedule);
            && CustomersAt(s.customers, 1, 8) <= c.shopMax
            && CustomersAt(s.customers, 2, 4) <= c.sofa
            && BarbersAt(s.barbers, 4, 6) <= 1
  {
    var s := Exec(Init(c), schedule);
    AlwaysBalanced(c, schedule);
    CustomersAtIsDifference(s.customers, 1, 8);
    CustomersAtIsDifference(s.customers, 2, 4);
    BarbersAtIsDifference(s.barbers, 4, 6);
    assert BarberTally(s.barbers)[3] == BarberPasses(s.barbers, 3);
  }

  /** No more customers than barbers are past `sem_wait(cut_barber_ready)` and have not yet posted
      their payment: nobody counts the chairs, the payments do. */
  lemma {:induction false} ChairBound(c: Config, schedule: seq<Thread>)
    ensures CustomersAt(Exec(Init(c), schedule).customers, 4, 6) <= c.barbers
  {
    var s := Exec(Init(c), schedule);
    AlwaysBalanced(c, schedule);
    CustomersAtIsDifference(s.customers, 4, 6);
    TalliesDescend(c, s);
    var b, p := BarberTally(s.barbers), CustomerTally(s.customers);
    assert b[0] <= b[5] + c.barbers && p[3] == CustomersPast(s.customers, 3) && p[6] == CustomersPast(s.customers, 6);
  }

  /** Payments collected <= payments posted <= haircuts finished <= haircuts started <= customers
      announced; customers released at the desk exceed the payments collected by at most one. */
  lemma {:induction false} ConservationChain(c: Config, schedule: seq<Thread>)
    ensures var s := Exec(Init(c), schedule);
            var b, p := BarberTally(s.barbers), CustomerTally(s.customers);
            b[5] <= p[6] <= b[2] <= b[1] <= p[2] && p[7] <= b[5] + 1
  {
    var s := Exec(Init(c), schedule);
    AlwaysBalanced(c, schedule);
    TalliesDescend(c, s);
  }

  /** When a customer can go on, told by the heads in the shop and not by the semaphores. */
  lemma {:induction false} CustomerGoesOn(c: Config, schedule: seq<Thread>, i: nat)
    requires i < c.customers
    ensures var s := Exec(Init(c), schedule);
            && |s.customers| == c.customers
            && Enabled(s, Customer(i)) == match s.customers[i]
               case 0 => CustomersAt(s.customers, 1, 8) < c.shopMax
               case 1 => CustomersAt(s.customers, 2, 4) < c.sofa
               case 3 => CustomersPast(s.customers, 3) < BarberPasses(s.barbers, 0)
               case 5 => CustomersPast(s.customers, 5) < BarberPasses(s.barbers, 2)
               case 7 => CustomersPast(s.customers, 7) < BarberPasses(s.barbers, 4)
               case k => k == 2 || k == 4 || k == 6 || k == 8
  {
    var s := Exec(Init(c), schedule);
    AlwaysBalanced(c, schedule);
    CustomersAtIsDifference(s.customers, 1, 8);
    CustomersAtIsDifference(s.customers, 2, 4);
    CustomerReads(c, s, BarberTally(s.barbers), CustomerTally(s.customers), s.customers[i]);
  }

  /** The semaphore a customer's call waits for, by the tallies. */
  lemma CustomerReads(c: Config, s: State, b: seq<nat>, p: seq<nat>, k: nat)
    requires |b| == 7 && |p| == 9 && Equations(c, s.sems, b, p) && k <= 9
    ensures Available(s.sems, CustomerCall(k)) == match k
            case 0 => p[0] < c.shopMax + p[8]
            case 1 => p[1] < c.sofa + p[4]
            case 3 => p[3] < b[0]
            case 5 => p[5] < b[2]
            case 7 => p[7] < b[4]
            case _ => true
  {
  }

  /** When a barber can go on: for the cash desk when no barber is at it, else by the tallies. */
  lemma {:induction false} BarberGoesOn(c: Config, schedule: seq<Thread>, i: nat)
    requires i < c.barbers
    ensures var s := Exec(Init(c), schedule);
            && |s.barbers| == c.barbers
            && Enabled(s, Barber(i)) == match s.barbers[i] % 7
               case 1 => BarberPasses(s.barbers, 1) < CustomersPast(s.customers, 2)
               case 3 => BarbersAt(s.barbers, 4, 6) == 0
               case 5 => BarberPasses(s.barbers, 5) < CustomersPast(s.customers, 6)
               case _ => true
  {
    var s := Exec(Init(c), schedule);
    AlwaysBalanced(c, schedule);
    BarbersAtIsDifference(s.barbers, 4, 6);
    BarberReads(c, s, BarberTally(s.barbers), CustomerTally(s.customers), s.barbers[i] % 7);
  }

  lemma BarberReads(c: Config, s: State, b: seq<nat>, p: seq<nat>, k: nat)
    requires |b| == 7 && |p| == 9 && Equations(c, s.sems, b, p) && k < 7
    ensures Available(s.sems, BarberCall(k)) == match k
            case 1 => b[1] < p[2]
            case 3 => b[3] < 1 + b[6]
            case 5 => b[5] < p[6]
            case _ => true
  {
  }

  lemma {:induction false} NoBarberAt(bs: seq<nat>, k: nat)
    requires k < 7 && forall i :: 0 <= i < |bs| ==> bs[i] % 7 != k
    ensures k > 0 ==> BarberPasses(bs, k - 1) == BarberPasses(bs, k)
    ensures k == 0 ==> BarberPasses(bs, 0) == BarberPasses(bs, 6) + |bs|
    decreases |bs|
  {
    if bs != [] {
      NoBarberAt(bs[..|bs| - 1], k);
    }
  }

  lemma {:induction false} NoCustomerAt(cs: seq<nat>, k: nat)
    requires forall i :: 0 <= i < |cs| ==> cs[i] != k
    ensures k > 0 ==> CustomersPast(cs, k - 1) == CustomersPast(cs, k)
    ensures k == 0 ==> CustomersPast(cs, 0) == |cs|
    decreases |cs|
  {
    if cs != [] {
      NoCustomerAt(cs[..|cs| - 1], k);
    }
  }

  /** Everybody before call k has made it: the tallies on both sides of k agree. */
  predicate BarbersPassed(n: nat, b: seq<nat>, k: nat)
    requires |b| == 7 && k < 7
  {
    if k == 0 then b[0] == b[6] + n else b[k - 1] == b[k]
  }

  predicate CustomersPassed(n: nat, p: seq<nat>, k: nat)
    requires |p| == 9 && k < 9
  {
    if k == 0 then p[0] == n else p[k - 1] == p[k]
  }

  /** When nothing can move, nobody stands before a call that could complete. */
  lemma StuckTallies(s: State)
    requires Stuck(s)
    ensures forall k: nat {:trigger BarberCall(k)} | k < 7 && Available(s.sems, BarberCall(k)) ::
              BarbersPassed(|s.barbers|, BarberTally(s.barbers), k)
    ensures forall k: nat {:trigger CustomerCall(k)} | k < 9 && Available(s.sems, CustomerCall(k)) ::
              CustomersPassed(|s.customers|, CustomerTally(s.customers), k)
  {
    forall k: nat | k < 7 && Available(s.sems, BarberCall(k))
      ensures BarbersPassed(|s.barbers|, BarberTally(s.barbers), k)
    {
      forall i | 0 <= i < |s.barbers|
        ensures s.barbers[i] % 7 != k
      {
        assert !Enabled(s, Barber(i));
      }
      NoBarberAt(s.barbers, k);
    }
    forall k: nat | k < 9 && Available(s.sems, CustomerCall(k))
      ensures CustomersPassed(|s.customers|, CustomerTally(s.customers), k)
    {
      forall i | 0 <= i < |s.customers|
        ensures s.customers[i] != k
      {
        assert !Enabled(s, Customer(i));
      }
      NoCustomerAt(s.customers, k);
    }
  }

  /** A stuck shop has no barber past a haircut: if one waited for his payment, the money could be
      chased back to a customer whose haircut has not begun. */
  lemma StuckBarbers(c: Config, s: State, b: seq<nat>, p: seq<nat>)
    requires |b| == 7 && |p| == 9 && Equations(c, s.sems, b, p) && Descending(b) && Descending(p)
    requires forall k: nat {:trigger BarberCall(k)} | k < 7 && Available(s.sems, BarberCall(k)) ::
               BarbersPassed(c.barbers, b, k)
    requires forall k: nat {:trigger CustomerCall(k)} | k < 9 && Available(s.sems, CustomerCall(k)) ::
               CustomersPassed(c.customers, p, k)
    ensures b[0] == b[1] + c.barbers && b[1] == b[2] == b[3] == b[4] == b[5] == b[6]
  {
    assert BarberCall(0).Post? && BarberCall(2).Post? && BarberCall(4).Post? && BarberCall(6).Post?;
    assert CustomerCall(2).Post? && CustomerCall(4).Post? && CustomerCall(6).Post?;
    assert CustomerCall(7) == Wait(PayBarberReady) && CustomerCall(5) == Wait(CutDone);
    assert CustomerCall(3) == Wait(CutBarberReady);
    assert BarberCall(5) == Wait(PayCustomerReady) && BarberCall(3) == Wait(Cashdesk);
  }

  /** The tallies of a stuck shop: everybody has been served. */
  lemma StuckServed(c: Config, s: State, b: seq<nat>, p: seq<nat>)
    requires c.barbers >= 1 && c.shopMax >= 1 && c.sofa >= 1
    requires |b| == 7 && |p| == 9 && Equations(c, s.sems, b, p) && Descending(b) && Descending(p)
    requires forall k: nat {:trigger BarberCall(k)} | k < 7 && Available(s.sems, BarberCall(k)) ::
               BarbersPassed(c.barbers, b, k)
    requires forall k: nat {:trigger CustomerCall(k)} | k < 9 && Available(s.sems, CustomerCall(k)) ::
               CustomersPassed(c.customers, p, k)
    ensures forall k :: 0 <= k < 9 ==> p[k] == c.customers
    ensures forall k :: 0 < k < 7 ==> b[k] == c.customers
    ensures b[0] == c.customers + c.barbers
    ensures s.sems == Init(c).sems.(cutBarberReady := c.barbers)
  {
    StuckBarbers(c, s, b, p);
    assert BarberCall(1) == Wait(CutCustomerReady);
    assert CustomerCall(0) == TryWait(CustomersInShop) && CustomerCall(1) == Wait(CustomersOnSofa);
    assert CustomerCall(2).Post? && CustomerCall(3) == Wait(CutBarberReady) && CustomerCall(4).Post?;
    assert CustomerCall(5) == Wait(CutDone) && CustomerCall(6).Post? && CustomerCall(7) == Wait(PayBarberReady);
    assert CustomerCall(8).Post?;
  }

  lemma {:induction false} AllPast(cs: seq<nat>)
    requires CustomersPast(cs, 8) == |cs| && forall i :: 0 <= i < |cs| ==> cs[i] <= 9
    ensures forall i :: 0 <= i < |cs| ==> cs[i] == 9
    decreases |cs|
  {
    if cs != [] {
      PastAtMost(cs[..|cs| - 1]);
      AllPast(cs[..|cs| - 1]);
    }
  }

  lemma {:induction false} PastAtMost(cs: seq<nat>)
    ensures CustomersPast(cs, 8) <= |cs|
    decreases |cs|
  {
    if cs != [] {
      PastAtMost(cs[..|cs| - 1]);
    }
  }

  lemma {:induction false} AllWaiting(bs: seq<nat>)
    requires BarberPasses(bs, 0) == BarberPasses(bs, 1) + |bs|
    ensures forall i :: 0 <= i < |bs| ==> bs[i] % 7 == 1
    decreases |bs|
  {
    if bs != [] {
      FirstGapAtMost(bs[..|bs| - 1]);
      AllWaiting(bs[..|bs| - 1]);
    }
  }

  lemma {:induction false} FirstGapAtMost(bs: seq<nat>)
    ensures BarberPasses(bs, 0) <= BarberPasses(bs, 1) + |bs|
    decreases |bs|
  {
    if bs != [] {
      FirstGapAtMost(bs[..|bs| - 1]);
    }
  }

  /** Where a run can end: everybody served, all barbers at `sem_wait(cut_customer_ready)`, and the
      semaphores as at the start except that every barber has announced himself once more. */
  ghost predicate Closed(c: Config, s: State) {
    && (forall i :: 0 <= i < |s.customers| ==> s.customers[i] == 9)
    && (forall i :: 0 <= i < |s.barbers| ==> s.barbers[i] % 7 == 1)
    && s.sems == Init(c).sems.(cutBarberReady := c.barbers)
  }

  lemma StuckIsClosed(c: Config, s: State)
    requires c.barbers >= 1 && c.shopMax >= 1 && c.sofa >= 1
    requires Balanced(c, s) && Stuck(s)
    ensures Closed(c, s)
    ensures Sum(s.barbers) + Sum(s.customers) == 16 * c.customers + c.barbers
  {
    var b, p := BarberTally(s.barbers), CustomerTally(s.customers);
    TalliesDescend(c, s);
    StuckTallies(s);
    StuckServed(c, s, b, p);
    assert p[8] == CustomersPast(s.customers, 8);
    AllPast(s.customers);
    assert b[0] == BarberPasses(s.barbers, 0) && b[1] == BarberPasses(s.barbers, 1);
    AllWaiting(s.barbers);
  }

  /** Deadlock freedom: while a customer is unfinished, some thread can complete a call. */
  lemma {:induction false} DeadlockFree(c: Config, schedule: seq<Thread>)
    requires c.barbers >= 1 && c.shopMax >= 1 && c.sofa >= 1
    requires !AllFinished(Exec(Init(c), schedule))
    ensures exists t :: Enabled(Exec(Init(c), schedule), t)
  {
    var s := Exec(Init(c), schedule);
    AlwaysBalanced(c, schedule);
    if Stuck(s) {
      StuckIsClosed(c, s);
    }
  }

  /** No schedule, however long and however unfair, completes more than 16N + M calls. */
  lemma {:induction false} MovesBounded(c: Config, schedule: seq<Thread>)
    ensures Moves(Init(c), schedule) <= 16 * c.customers + c.barbers
  {
    var s := Exec(Init(c), schedule);
    AlwaysBalanced(c, schedule);
    TalliesDescend(c, s);
    var b, p := BarberTally(s.barbers), CustomerTally(s.customers);
    assert b[0] == BarberPasses(s.barbers, 0) && b[6] == BarberPasses(s.barbers, 6);
    assert p[0] == CustomersPast(s.customers, 0);
  }

  /** Exact run length: a run is maximal exactly when it has completed 16N + M calls, and then the
      shop is closed. */
  lemma {:induction false} ExactTermination(c: Config, schedule: seq<Thread>)
    requires c.barbers >= 1 && c.shopMax >= 1 && c.sofa >= 1
    ensures Stuck(Exec(Init(c), schedule)) <==> Moves(Init(c), schedule) == 16 * c.customers + c.barbers
    ensures Stuck(Exec(Init(c), schedule)) ==> Closed(c, Exec(Init(c), schedule))
  {
    var s := Exec(Init(c), schedule);
    AlwaysBalanced(c, schedule);
    if Stuck(s) {
      StuckIsClosed(c, s);
    } else if t :| Enabled(s, t) {
      assert (schedule + [t])[..|schedule|] == schedule;
      MovesBounded(c, schedule + [t]);
    }
  }

  /** From every reachable state some continuation serves everybody: there is no livelock either. */
  lemma {:induction false} CanAlwaysClose(c: Config, schedule: seq<Thread>) returns (rest: seq<Thread>)
    requires c.barbers >= 1 && c.shopMax >= 1 && c.sofa >= 1
    ensures Stuck(Exec(Init(c), schedule + rest)) && Closed(c, Exec(Init(c), schedule + rest))
    decreases 16 * c.customers + c.barbers - Moves(Init(c), schedule)
  {
    var s := Exec(Init(c), schedule);
    if Stuck(s) {
      rest := [];
      assert schedule + rest == schedule;
      ExactTermination(c, schedule);
    } else {
      var t :| Enabled(s, t);
      assert (schedule + [t])[..|schedule|] == schedule;
      MovesBounded(c, schedule + [t]);
      var more := CanAlwaysClose(c, schedule + [t]);
      rest := [t] + more;
      assert schedule + rest == schedule + [t] + more;
    }
  }
}
