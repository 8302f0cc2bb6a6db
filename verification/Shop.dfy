/** `struct shop` and its two thread functions, as an object whose methods run one call at a time. */
module Shop {
  import opened ShopProtocol

  class Shop {
    ghost const config: Config
    var customersInShop: nat
    var customersOnSofa: nat
    var cashdesk: nat
    var cutCustomerReady: nat
    var cutBarberReady: nat
    var cutDone: nat
    var payCustomerReady: nat
    var payBarberReady: nat
    var barbers: seq<nat>    // calls each barber thread has completed
    var customers: seq<nat>  // calls each customer thread has completed

    ghost function Semaphores(): Sems
      reads this
    {
      Sems(customersInShop, customersOnSofa, cashdesk, cutCustomerReady, cutBarberReady,
           cutDone, payCustomerReady, payBarberReady)
    }

    ghost function Abstract(): State
      reads this
    {
      State(Semaphores(), barbers, customers)
    }

    ghost var schedule: seq<Thread>  // the threads that have run so far

    /** The shop is in the state its schedule leads to; every theorem about schedules applies. */
    ghost predicate Valid()
      reads this
    {
      Abstract() == Exec(Init(config), schedule)
    }

    /** `shop_create` and `shop_run`. */
    constructor (barbersNum: nat, customersNum: nat, shopMax: nat, sofaSize: nat)
      ensures config == Config(barbersNum, customersNum, shopMax, sofaSize)
      ensures Valid() && schedule == [] && Abstract() == Init(config)
    {
      config := Config(barbersNum, customersNum, shopMax, sofaSize);
      customersInShop, customersOnSofa, cashdesk := shopMax, sofaSize, 1;
      cutCustomerReady, cutBarberReady, cutDone := 0, 0, 0;
      payCustomerReady, payBarberReady := 0, 0;
      barbers, customers, schedule := seq(barbersNum, _ => 0), seq(customersNum, _ => 0), [];
    }

    /** Call k of the loop in `barber_main`: lines 83, 87, 93, 96, 100, 101 and 104. */
    method BarberMain(k: nat) returns (completed: bool)
      modifies `customersInShop, `customersOnSofa, `cashdesk, `cutCustomerReady, `cutBarberReady,
               `cutDone, `payCustomerReady, `payBarberReady
      ensures completed == Available(old(Semaphores()), BarberCall(k))
      ensures Semaphores() == if completed then Changed(old(Semaphores()), BarberCall(k)) else old(Semaphores())
      ensures completed == match k
              case 1 => old(cutCustomerReady) > 0
              case 3 => old(cashdesk) > 0
              case 5 => old(payCustomerReady) > 0
              case _ => true
      ensures completed ==> var was := old(Semaphores());
              Semaphores() == match k
              case 0 => was.(cutBarberReady := was.cutBarberReady + 1)
              case 1 => was.(cutCustomerReady := was.cutCustomerReady - 1)
              case 2 => was.(cutDone := was.cutDone + 1)
              case 3 => was.(cashdesk := was.cashdesk - 1)
              case 4 => was.(payBarberReady := was.payBarberReady + 1)
              case 5 => was.(payCustomerReady := was.payCustomerReady - 1)
              case _ => was.(cashdesk := was.cashdesk + 1)
    {
      completed := true;
      match k {
        case 0 => cutBarberReady := cutBarberReady + 1;
        case 1 => if cutCustomerReady == 0 { return false; } cutCustomerReady := cutCustomerReady - 1;
        case 2 => cutDone := cutDone + 1;
        case 3 => if cashdesk == 0 { return false; } cashdesk := cashdesk - 1;
        case 4 => payBarberReady := payBarberReady + 1;
        case 5 => if payCustomerReady == 0 { return false; } payCustomerReady := payCustomerReady - 1;
        case _ => cashdesk := cashdesk + 1;
      }
    }

    /** Call k of `customer_main`: lines 120, 126, 131, 132, 135, 139, 142, 143 and 147.  A failed
        `sem_trywait` goes for a drink. */
    method CustomerMain(k: nat) returns (completed: bool)
      modifies `customersInShop, `customersOnSofa, `cashdesk, `cutCustomerReady, `cutBarberReady,
               `cutDone, `payCustomerReady, `payBarberReady
      ensures completed == Available(old(Semaphores()), CustomerCall(k))
      ensures Semaphores() == if completed then Changed(old(Semaphores()), CustomerCall(k)) else old(Semaphores())
      ensures completed == match k
              case 0 => old(customersInShop) > 0
              case 1 => old(customersOnSofa) > 0
              case 3 => old(cutBarberReady) > 0
              case 5 => old(cutDone) > 0
              case 7 => old(payBarberReady) > 0
              case _ => true
      ensures completed ==> var was := old(Semaphores());
              Semaphores() == match k
              case 0 => was.(customersInShop := was.customersInShop - 1)
              case 1 => was.(customersOnSofa := was.customersOnSofa - 1)
              case 2 => was.(cutCustomerReady := was.cutCustomerReady + 1)
              case 3 => was.(cutBarberReady := was.cutBarberReady - 1)
              case 4 => was.(customersOnSofa := was.customersOnSofa + 1)
              case 5 => was.(cutDone := was.cutDone - 1)
              case 6 => was.(payCustomerReady := was.payCustomerReady + 1)
              case 7 => was.(payBarberReady := was.payBarberReady - 1)
              case _ => was.(customersInShop := was.customersInShop + 1)
    {
      completed := true;
      match k {
        case 0 => if customersInShop == 0 { return false; } customersInShop := customersInShop - 1;
        case 1 => if customersOnSofa == 0 { return false; } customersOnSofa := customersOnSofa - 1;
        case 2 => cutCustomerReady := cutCustomerReady + 1;
        case 3 => if cutBarberReady == 0 { return false; } cutBarberReady := cutBarberReady - 1;
        case 4 => customersOnSofa := customersOnSofa + 1;
        case 5 => if cutDone == 0 { return false; } cutDone := cutDone - 1;
        case 6 => payCustomerReady := payCustomerReady + 1;
        case 7 => if payBarberReady == 0 { return false; } payBarberReady := payBarberReady - 1;
        case _ => customersInShop := customersInShop + 1;
      }
    }

    /** Barber i is given the processor for one call. */
    method RunBarber(i: nat) returns (completed: bool)
      requires Valid() && i < |barbers|
      modifies this
      ensures Valid() && schedule == old(schedule) + [Barber(i)]
      ensures completed == Enabled(old(Abstract()), Barber(i))
      ensures Abstract() == After(old(Abstract()), Barber(i))
      ensures !completed ==> Abstract() == old(Abstract())
      ensures customers == old(customers)
      ensures barbers == if completed then old(barbers)[i := old(barbers)[i] + 1] else old(barbers)
    {
      ExecSnoc(Init(config), schedule, Barber(i));
      schedule := schedule + [Barber(i)];
      completed := BarberMain(barbers[i] % BARBER_CALLS);
      if completed {
        barbers := barbers[i := barbers[i] + 1];
      }
    }

    /** Customer i is given the processor for one call; a finished customer has none. */
    method RunCustomer(i: nat) returns (completed: bool)
      requires Valid() && i < |customers|
      modifies this
      ensures Valid() && schedule == old(schedule) + [Customer(i)]
      ensures completed == Enabled(old(Abstract()), Customer(i))
      ensures Abstract() == After(old(Abstract()), Customer(i))
      ensures !completed ==> Abstract() == old(Abstract())
      ensures barbers == old(barbers)
      ensures customers == if completed then old(customers)[i := old(customers)[i] + 1] else old(customers)
    {
      ExecSnoc(Init(config), schedule, Customer(i));
      schedule := schedule + [Customer(i)];
      completed := false;
      if customers[i] < CUSTOMER_CALLS {
        completed := CustomerMain(customers[i]);
      }
      if completed {
        customers := customers[i := customers[i] + 1];
      }
    }
  }
}
