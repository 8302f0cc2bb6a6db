/** The barbershop of `2_threads/barbershop.c` as a step system.

    A thread is a straight list of semaphore calls: a barber repeats its list for ever, a customer
    runs its list once.  Everything else in the two thread functions is printing and sleeping. */
module ShopProtocol {

  /** The eight counting semaphores of `struct shop`. */
  datatype Sem =
    | CustomersInShop | CustomersOnSofa | Cashdesk
    | CutCustomerReady | CutBarberReady | CutDone
    | PayCustomerReady | PayBarberReady

  datatype Op = Post(sem: Sem) | Wait(sem: Sem) | TryWait(sem: Sem)

  const BARBER_CALLS := 7
  const CUSTOMER_CALLS := 9

  /** The loop body of `barber_main`, call by call. */
  function BarberCall(k: nat): Op {
    match k
    case 0 => Post(CutBarberReady)
    case 1 => Wait(CutCustomerReady)
    case 2 => Post(CutDone)
    case 3 => Wait(Cashdesk)
    case 4 => Post(PayBarberReady)
    case 5 => Wait(PayCustomerReady)
    case _ => Post(Cashdesk)
  }

  /** The body of `customer_main`, call by call. */
  function CustomerCall(k: nat): Op {
    match k
    case 0 => TryWait(CustomersInShop)
    case 1 => Wait(CustomersOnSofa)
    case 2 => Post(CutCustomerReady)
    case 3 => Wait(CutBarberReady)
    case 4 => Post(CustomersOnSofa)
    case 5 => Wait(CutDone)
    case 6 => Post(PayCustomerReady)
    case 7 => Wait(PayBarberReady)
    case _ => Post(CustomersInShop)
  }

  datatype Config = Config(barbers: nat, customers: nat, shopMax: nat, sofa: nat)

  datatype Thread = Barber(id: nat) | Customer(id: nat)

  /** The values of the eight semaphores. */
  datatype Sems = Sems(
    customersInShop: nat, customersOnSofa: nat, cashdesk: nat,
    cutCustomerReady: nat, cutBarberReady: nat, cutDone: nat,
    payCustomerReady: nat, payBarberReady: nat)
  {
    function Get(x: Sem): nat {
      match x
      case CustomersInShop => customersInShop
      case CustomersOnSofa => customersOnSofa
      case Cashdesk => cashdesk
      case CutCustomerReady => cutCustomerReady
      case CutBarberReady => cutBarberReady
      case CutDone => cutDone
      case PayCustomerReady => payCustomerReady
      case PayBarberReady => payBarberReady
    }

    function Set(x: Sem, v: nat): Sems {
      match x
      case CustomersInShop => this.(customersInShop := v)
      case CustomersOnSofa => this.(customersOnSofa := v)
      case Cashdesk => this.(cashdesk := v)
      case CutCustomerReady => this.(cutCustomerReady := v)
      case CutBarberReady => this.(cutBarberReady := v)
      case CutDone => this.(cutDone := v)
      case PayCustomerReady => this.(payCustomerReady := v)
      case PayBarberReady => this.(payBarberReady := v)
    }
  }

  /** `barbers[i]` and `customers[i]` count the semaphore calls thread i has completed. */
  datatype State = State(sems: Sems, barbers: seq<nat>, customers: seq<nat>)

  /** What `shop_create` and `shop_run` set up. */
  function Init(c: Config): State {
    State(Sems(c.shopMax, c.sofa, 1, 0, 0, 0, 0, 0),
          seq(c.barbers, _ => 0), seq(c.customers, _ => 0))
  }

  predicate Finished(customerSteps: nat) {
    customerSteps >= CUSTOMER_CALLS
  }

  /** The thread exists and has a next call. */
  predicate Alive(s: State, t: Thread) {
    match t
    case Barber(i) => i < |s.barbers|
    case Customer(i) => i < |s.customers| && !Finished(s.customers[i])
  }

  function NextOp(s: State, t: Thread): Op
    requires Alive(s, t)
  {
    match t
    case Barber(i) => BarberCall(s.barbers[i] % BARBER_CALLS)
    case Customer(i) => CustomerCall(s.customers[i])
  }

  /** A call can complete now: a post always, a wait when there is something to take. */
  predicate Available(sems: Sems, op: Op) {
    op.Post? || sems.Get(op.sem) > 0
  }

  function Changed(sems: Sems, op: Op): Sems
    requires Available(sems, op)
  {
    sems.Set(op.sem, if op.Post? then sems.Get(op.sem) + 1 else sems.Get(op.sem) - 1)
  }

  /** The thread's next call can complete now.  A `sem_trywait` that finds zero does not complete:
      the customer goes round its retry loop. */
  predicate Enabled(s: State, t: Thread) {
    Alive(s, t) && Available(s.sems, NextOp(s, t))
  }

  /** One completed call. */
  function Step(s: State, t: Thread): State
    requires Enabled(s, t)
  {
    var s' := s.(sems := Changed(s.sems, NextOp(s, t)));
    match t
    case Barber(i) => s'.(barbers := s.barbers[i := s.barbers[i] + 1])
    case Customer(i) => s'.(customers := s.customers[i := s.customers[i] + 1])
  }

  /** Giving a thread the processor: a blocked or retrying thread changes nothing. */
  function After(s: State, t: Thread): State {
    if Enabled(s, t) then Step(s, t) else s
  }

  /** The state after an arbitrary schedule. */
  function Exec(s: State, schedule: seq<Thread>): State
    decreases |schedule|
  {
    if schedule == [] then s
    else After(Exec(s, schedule[..|schedule| - 1]), schedule[|schedule| - 1])
  }

  lemma {:induction false} ExecSnoc(s: State, schedule: seq<Thread>, t: Thread)
    ensures Exec(s, schedule + [t]) == After(Exec(s, schedule), t)
  {
    assert (schedule + [t])[..|schedule|] == schedule;
  }

  /** How many calls of the schedule completed. */
  function Moves(s: State, schedule: seq<Thread>): nat
    decreases |schedule|
  {
    if schedule == [] then 0
    else
      var before := schedule[..|schedule| - 1];
      Moves(s, before) + if Enabled(Exec(s, before), schedule[|schedule| - 1]) then 1 else 0
  }

  ghost predicate Stuck(s: State) {
    forall t :: !Enabled(s, t)
  }

  predicate AllFinished(s: State) {
    forall i :: 0 <= i < |s.customers| ==> Finished(s.customers[i])
  }
}
