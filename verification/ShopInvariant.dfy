/** Counting threads, and the eight balance equations that hold in every reachable state. */
module ShopInvariant {
  import opened ShopProtocol

  /** How often a barber that has completed `steps` calls has completed call k of the loop. */
  function Passes(steps: nat, k: nat): nat {
    steps / 7 + if steps % 7 > k then 1 else 0
  }

  /** Completions of barber call k, over all barbers and rounds. */
  function BarberPasses(bs: seq<nat>, k: nat): nat {
    if bs == [] then 0 else BarberPasses(bs[..|bs| - 1], k) + Passes(bs[|bs| - 1], k)
  }

  /** Customers that have completed call k. */
  function CustomersPast(cs: seq<nat>, k: nat): nat {
    if cs == [] then 0
    else CustomersPast(cs[..|cs| - 1], k) + if cs[|cs| - 1] > k then 1 else 0
  }

  function Sum(xs: seq<nat>): nat {
    if xs == [] then 0 else Sum(xs[..|xs| - 1]) + xs[|xs| - 1]
  }

  lemma {:induction false} BarberUpdate(bs: seq<nat>, i: nat, k: nat)
    requires i < |bs| && k < 7
    ensures BarberPasses(bs[i := bs[i] + 1], k) == BarberPasses(bs, k) + if bs[i] % 7 == k then 1 else 0
    ensures Sum(bs[i := bs[i] + 1]) == Sum(bs) + 1
    decreases |bs|
  {
    var last := |bs| - 1;
    var bs' := bs[i := bs[i] + 1];
    if i == last {
      assert bs'[..last] == bs[..last];
    } else {
      BarberUpdate(bs[..last], i, k);
      assert bs'[..last] == bs[..last][i := bs[i] + 1];
    }
  }

  lemma {:induction false} CustomerUpdate(cs: seq<nat>, i: nat, k: nat)
    requires i < |cs|
    ensures CustomersPast(cs[i := cs[i] + 1], k) == CustomersPast(cs, k) + if cs[i] == k then 1 else 0
    ensures Sum(cs[i := cs[i] + 1]) == Sum(cs) + 1
    decreases |cs|
  {
    var last := |cs| - 1;
    var cs' := cs[i := cs[i] + 1];
    if i == last {
      assert cs'[..last] == cs[..last];
    } else {
      CustomerUpdate(cs[..last], i, k);
      assert cs'[..last] == cs[..last][i := cs[i] + 1];
    }
  }

  /** The order of the pass counts: a barber is at most one call ahead round the loop. */
  lemma {:induction false} BarberOrder(bs: seq<nat>)
    ensures forall k {:trigger BarberPasses(bs, k)} :: 0 <= k < 6 ==> BarberPasses(bs, k) >= BarberPasses(bs, k + 1)
    ensures BarberPasses(bs, 0) <= BarberPasses(bs, 6) + |bs|
    decreases |bs|
  {
    if bs != [] {
      BarberOrder(bs[..|bs| - 1]);
    }
  }

  /** The calls add up. */
  lemma {:induction false} BarberCounts(bs: seq<nat>)
    ensures Sum(bs) == BarberPasses(bs, 0) + BarberPasses(bs, 1) + BarberPasses(bs, 2) + BarberPasses(bs, 3)
                       + BarberPasses(bs, 4) + BarberPasses(bs, 5) + BarberPasses(bs, 6)
    decreases |bs|
  {
    if bs != [] {
      BarberCounts(bs[..|bs| - 1]);
    }
  }

  lemma {:induction false} CustomerOrder(cs: seq<nat>)
    ensures forall k {:trigger CustomersPast(cs, k)} :: k >= 0 ==> CustomersPast(cs, k) >= CustomersPast(cs, k + 1)
    ensures CustomersPast(cs, 0) <= |cs|
    decreases |cs|
  {
    if cs != [] {
      CustomerOrder(cs[..|cs| - 1]);
    }
  }

  lemma {:induction false} CustomerCounts(cs: seq<nat>)
    requires forall i :: 0 <= i < |cs| ==> cs[i] <= 9
    ensures Sum(cs) == CustomersPast(cs, 0) + CustomersPast(cs, 1) + CustomersPast(cs, 2) + CustomersPast(cs, 3)
                       + CustomersPast(cs, 4) + CustomersPast(cs, 5) + CustomersPast(cs, 6)
                       + CustomersPast(cs, 7) + CustomersPast(cs, 8)
    decreases |cs|
  {
    if cs != [] {
      CustomerCounts(cs[..|cs| - 1]);
    }
  }

  /** Completions of each barber call and of each customer call. */
  function BarberTally(bs: seq<nat>): seq<nat> {
    seq(7, k requires 0 <= k => BarberPasses(bs, k))
  }

  function CustomerTally(cs: seq<nat>): seq<nat> {
    seq(9, k requires 0 <= k => CustomersPast(cs, k))
  }

  /** Each semaphore's value is its initial value plus the posts minus the waits completed on it;
      b and p tally the completions of the barber and the customer calls. */
  predicate Equations(c: Config, sems: Sems, b: seq<nat>, p: seq<nat>)
    requires |b| == 7 && |p| == 9
  {
    && sems.customersInShop + p[0] == c.shopMax + p[8]
    && sems.customersOnSofa + p[1] == c.sofa + p[4]
    && sems.cashdesk + b[3] == 1 + b[6]
    && sems.cutCustomerReady + b[1] == p[2]
    && sems.cutBarberReady + p[3] == b[0]
    && sems.cutDone + p[5] == b[2]
    && sems.payCustomerReady + b[5] == p[6]
    && sems.payBarberReady + p[7] == b[4]
  }

  /** The invariant of the shop. */
  predicate Balanced(c: Config, s: State) {
    && |s.barbers| == c.barbers && |s.customers| == c.customers
    && (forall i :: 0 <= i < |s.customers| ==> s.customers[i] <= 9)
    && Equations(c, s.sems, BarberTally(s.barbers), CustomerTally(s.customers))
  }

  lemma {:induction false} ZeroCounts(n: nat, k: nat)
    ensures BarberPasses(seq(n, _ => 0), k) == 0
    ensures CustomersPast(seq(n, _ => 0), k) == 0
    ensures Sum(seq(n, _ => 0)) == 0
  {
    var zeros: seq<nat> := seq(n, _ => 0);
    if n > 0 {
      assert zeros[..n - 1] == seq(n - 1, _ => 0);
      ZeroCounts(n - 1, k);
    }
  }

  lemma InitBalanced(c: Config)
    ensures Balanced(c, Init(c))
  {
    forall k: nat
      ensures BarberPasses(Init(c).barbers, k) == 0 && CustomersPast(Init(c).customers, k) == 0
    {
      ZeroCounts(c.barbers, k);
      ZeroCounts(c.customers, k);
      assert Init(c).barbers == seq(c.barbers, _ => 0);
      assert Init(c).customers == seq(c.customers, _ => 0);
    }
  }

  lemma BarberStepCounts(bs: seq<nat>, i: nat)
    requires i < |bs|
    ensures var pc, b := bs[i] % 7, BarberTally(bs);
            BarberTally(bs[i := bs[i] + 1]) == b[pc := b[pc] + 1]
    ensures Sum(bs[i := bs[i] + 1]) == Sum(bs) + 1
  {
    forall k: nat | k < 7
      ensures BarberPasses(bs[i := bs[i] + 1], k) == BarberPasses(bs, k) + if bs[i] % 7 == k then 1 else 0
    {
      BarberUpdate(bs, i, k);
    }
    BarberUpdate(bs, i, 0);
  }

  lemma CustomerStepCounts(cs: seq<nat>, i: nat)
    requires i < |cs| && cs[i] < 9
    ensures var p := CustomerTally(cs);
            CustomerTally(cs[i := cs[i] + 1]) == p[cs[i] := p[cs[i]] + 1]
    ensures Sum(cs[i := cs[i] + 1]) == Sum(cs) + 1
  {
    forall k: nat | k < 9
      ensures CustomersPast(cs[i := cs[i] + 1], k) == CustomersPast(cs, k) + if cs[i] == k then 1 else 0
    {
      CustomerUpdate(cs, i, k);
    }
    CustomerUpdate(cs, i, 0);
  }

  /** A call and its tally entry change the two sides of one equation alike. */
  lemma BarberCallBalanced(c: Config, s: State, b: seq<nat>, p: seq<nat>, pc: nat)
    requires |b| == 7 && |p| == 9 && Equations(c, s.sems, b, p)
    requires pc < 7 && Available(s.sems, BarberCall(pc))
    ensures Equations(c, Changed(s.sems, BarberCall(pc)), b[pc := b[pc] + 1], p)
  {
  }

  lemma CustomerCallBalanced(c: Config, s: State, b: seq<nat>, p: seq<nat>, pc: nat)
    requires |b| == 7 && |p| == 9 && Equations(c, s.sems, b, p)
    requires pc < 9 && Available(s.sems, CustomerCall(pc))
    ensures Equations(c, Changed(s.sems, CustomerCall(pc)), b, p[pc := p[pc] + 1])
  {
  }

  lemma BarberStepBalanced(c: Config, s: State, i: nat)
    requires Balanced(c, s) && Enabled(s, Barber(i))
    ensures Balanced(c, Step(s, Barber(i)))
  {
    BarberStepCounts(s.barbers, i);
    BarberCallBalanced(c, s, BarberTally(s.barbers), CustomerTally(s.customers), s.barbers[i] % 7);
  }

  lemma CustomerStepBalanced(c: Config, s: State, i: nat)
    requires Balanced(c, s) && Enabled(s, Customer(i))
    ensures Balanced(c, Step(s, Customer(i)))
  {
    CustomerStepCounts(s.customers, i);
    CustomerCallBalanced(c, s, BarberTally(s.barbers), CustomerTally(s.customers), s.customers[i]);
  }

  /** Every completed call keeps the balance. */
  lemma StepBalanced(c: Config, s: State, t: Thread)
    requires Balanced(c, s) && Enabled(s, t)
    ensures Balanced(c, Step(s, t))
    ensures Sum(Step(s, t).barbers) + Sum(Step(s, t).customers) == Sum(s.barbers) + Sum(s.customers) + 1
  {
    match t
    case Barber(i) =>
      BarberStepBalanced(c, s, i);
      BarberStepCounts(s.barbers, i);
    case Customer(i) =>
      CustomerStepBalanced(c, s, i);
      CustomerStepCounts(s.customers, i);
  }

  /** The balance holds after every schedule, and the step counts add up to the completed calls. */
  lemma {:induction false} AlwaysBalanced(c: Config, schedule: seq<Thread>)
    ensures var s := Exec(Init(c), schedule);
            Balanced(c, s) && Sum(s.barbers) + Sum(s.customers) == Moves(Init(c), schedule)
    decreases |schedule|
  {
    if schedule == [] {
      InitBalanced(c);
      ZeroCounts(c.barbers, 0);
      ZeroCounts(c.customers, 0);
    } else {
      var before := schedule[..|schedule| - 1];
      var t := schedule[|schedule| - 1];
      AlwaysBalanced(c, before);
      if Enabled(Exec(Init(c), before), t) {
        StepBalanced(c, Exec(Init(c), before), t);
      }
    }
  }
}
