/** Model of `src/layerzero/app/AppSource.sol`: a deposit updates `totalLocked`, calls out to the
    endpoint, and only then credits `lockedTokens`. What the outside code does during that call is
    an arbitrary tree of further deposits, of other calls and of ether forced into the contract,
    any of which may revert. */
module AppSource {
  import opened Common

  const LAYER_ZERO_FEE: nat := 10000000000000000

  datatype Log =
    | ETHDeposited(user: Address, amount: nat)
    | TokensLocked(user: Address, amount: nat)

  datatype Storage = Storage(totalLocked: nat, lockedTokens: map<Address, nat>, balance: nat, logs: seq<Log>)

  datatype Action =
    | Deposit(sender: Address, value: nat, during: seq<Action>, sendSucceeds: bool)
    | OtherCall(body: seq<Action>, callSucceeds: bool)
    | ForcedEther(amount: nat)

  const Deployed: Storage := Storage(0, map[], 0, [])

  function Locked(s: Storage, user: Address): nat {
    if user in s.lockedTokens then s.lockedTokens[user] else 0
  }

  /** The two requires and the checked addition at the top of `depositETH`. */
  predicate Admits(s: Storage, value: nat) {
    value > LAYER_ZERO_FEE && s.totalLocked + (value - LAYER_ZERO_FEE) < TWO_POW_256
  }

  /** The state the endpoint sees: the fee has gone out with the call, the rest is counted as locked. */
  function Entered(s: Storage, value: nat): Storage
    requires value > LAYER_ZERO_FEE
  {
    s.(totalLocked := s.totalLocked + (value - LAYER_ZERO_FEE), balance := s.balance + value - LAYER_ZERO_FEE)
  }

  function Credited(s: Storage, sender: Address, amount: nat): Storage {
    s.(lockedTokens := s.lockedTokens[sender := Locked(s, sender) + amount],
       logs := s.logs + [ETHDeposited(sender, amount)] + [TokensLocked(sender, amount)])
  }

  function Run(s: Storage, a: Action): Storage
    decreases a, 0
  {
    match a
    case Deposit(sender, value, during, sendSucceeds) =>
      if !Admits(s, value) then s
      else
        var amount, t := value - LAYER_ZERO_FEE, RunAll(Entered(s, value), during);
        if !sendSucceeds || Locked(t, sender) + amount >= TWO_POW_256 then s else Credited(t, sender, amount)
    case OtherCall(body, callSucceeds) => if callSucceeds then RunAll(s, body) else s
    case ForcedEther(amount) => s.(balance := s.balance + amount)
  }

  function RunAll(s: Storage, actions: seq<Action>): Storage
    decreases actions, 0
  {
    if actions == [] then s else RunAll(Run(s, actions[0]), actions[1..])
  }

  // ----- sums of a mapping

  ghost function Sum(m: map<Address, nat>): nat
    decreases m.Keys
  {
    if m.Keys == {} then 0
    else var k := Pick(m.Keys); m[k] + Sum(m - {k})
  }

  lemma {:induction false} SumPick(m: map<Address, nat>, k: Address)
    requires k in m
    ensures Sum(m) == m[k] + Sum(m - {k})
    decreases m.Keys
  {
    var j := Pick(m.Keys);
    if j != k {
      SumPick(m - {j}, k);
      SumPick(m - {k}, j);
      assert m - {j} - {k} == m - {k} - {j};
    }
  }

  lemma SumUpdate(m: map<Address, nat>, k: Address, v: nat)
    ensures Sum(m[k := v]) == Sum(m) - (if k in m then m[k] else 0) + v
  {
    SumPick(m[k := v], k);
    assert m[k := v] - {k} == m - {k};
    if k in m { SumPick(m, k); } else { assert m - {k} == m; }
  }

  // ----- the invariant

  function Credit(l: Log, user: Address): nat {
    if l.TokensLocked? && l.user == user then l.amount else 0
  }

  lemma LockedBySnoc(logs: seq<Log>, l: Log, user: Address)
    ensures LockedBy(logs + [l], user) == LockedBy(logs, user) + Credit(l, user)
  {
    assert (logs + [l])[..|logs|] == logs;
  }

  function LockedBy(logs: seq<Log>, user: Address): nat {
    if logs == [] then 0
    else LockedBy(logs[..|logs| - 1], user) + Credit(logs[|logs| - 1], user)
  }

  /** `totalLocked` is what has been credited plus `pending`, the amounts of the deposits now suspended in
      their endpoint call; the contract can pay for all of it; and the credits are what the log says. */
  ghost predicate Good(s: Storage, pending: nat) {
    && s.totalLocked == Sum(s.lockedTokens) + pending
    && s.totalLocked <= s.balance
    && s.totalLocked < TWO_POW_256
    && (forall u: Address :: Locked(s, u) == LockedBy(s.logs, u))
    && (forall i | 0 <= i < |s.logs| :: s.logs[i].amount > 0)
  }

  lemma DeployedIsGood()
    ensures Good(Deployed, 0)
  {
  }

  lemma EnteredIsGood(s: Storage, value: nat, pending: nat)
    requires Good(s, pending) && Admits(s, value)
    ensures Good(Entered(s, value), pending + (value - LAYER_ZERO_FEE))
  {
    assert forall u: Address :: Locked(Entered(s, value), u) == Locked(s, u);
  }

  lemma CreditedIsGood(s: Storage, sender: Address, amount: nat, pending: nat)
    requires Good(s, pending + amount) && amount > 0
    ensures Good(Credited(s, sender, amount), pending)
  {
    hide Sum, LockedBy;
    var t := Credited(s, sender, amount);
    SumUpdate(s.lockedTokens, sender, Locked(s, sender) + amount);
    forall u: Address ensures Locked(t, u) == LockedBy(t.logs, u) {
      CreditedAt(s, sender, amount, u);
    }
  }

  lemma CreditedAt(s: Storage, sender: Address, amount: nat, u: Address)
    requires Locked(s, u) == LockedBy(s.logs, u)
    ensures Locked(Credited(s, sender, amount), u) == LockedBy(Credited(s, sender, amount).logs, u)
  {
    hide LockedBy;
    LockedBySnoc(s.logs, ETHDeposited(sender, amount), u);
    LockedBySnoc(s.logs + [ETHDeposited(sender, amount)], TokensLocked(sender, amount), u);
  }

  /** The invariant survives every action with the same pending amounts, whatever happens inside it. */
  lemma {:induction false} RunKeepsGood(s: Storage, a: Action, pending: nat)
    requires Good(s, pending)
    ensures Good(Run(s, a), pending)
    decreases a, 0
  {
    hide Good;
    match a
    case Deposit(sender, value, during, sendSucceeds) =>
      if Admits(s, value) {
        var amount := value - LAYER_ZERO_FEE;
        EnteredIsGood(s, value, pending);
        RunAllKeepsGood(Entered(s, value), during, pending + amount);
        CreditedIsGood(RunAll(Entered(s, value), during), sender, amount, pending);
      }
    case OtherCall(body, callSucceeds) =>
      RunAllKeepsGood(s, body, pending);
    case ForcedEther(amount) =>
      MoreEther(s, amount, pending);
  }

  lemma MoreEther(s: Storage, amount: nat, pending: nat)
    requires Good(s, pending)
    ensures Good(s.(balance := s.balance + amount), pending)
  {
    var t := s.(balance := s.balance + amount);
    assert forall u: Address :: Locked(t, u) == Locked(s, u);
  }

  lemma {:induction false} RunAllKeepsGood(s: Storage, actions: seq<Action>, pending: nat)
    requires Good(s, pending)
    ensures Good(RunAll(s, actions), pending)
    decreases actions, 0
  {
    hide Good;
    if actions != [] {
      RunKeepsGood(s, actions[0], pending);
      RunAllKeepsGood(Run(s, actions[0]), actions[1..], pending);
    }
  }

  /** The checked addition that credits the sender cannot overflow: the amount is already in `totalLocked`. */
  lemma CreditNeverOverflows(s: Storage, sender: Address, amount: nat, pending: nat)
    requires Good(s, pending + amount)
    ensures Locked(s, sender) + amount < TWO_POW_256
  {
    if sender in s.lockedTokens { SumPick(s.lockedTokens, sender); }
  }

  /** So a deposit that is admitted takes effect exactly when the endpoint call succeeds. */
  lemma DepositSucceedsIff(s: Storage, sender: Address, value: nat, during: seq<Action>, sendSucceeds: bool,
                           pending: nat)
    requires Good(s, pending)
    ensures
      var amount := value - LAYER_ZERO_FEE;
      Run(s, Deposit(sender, value, during, sendSucceeds))
      == if Admits(s, value) && sendSucceeds then Credited(RunAll(Entered(s, value), during), sender, amount) else s
  {
    if Admits(s, value) {
      var amount := value - LAYER_ZERO_FEE;
      EnteredIsGood(s, value, pending);
      RunAllKeepsGood(Entered(s, value), during, pending + amount);
      CreditNeverOverflows(RunAll(Entered(s, value), during), sender, amount, pending);
    }
  }

  // ----- who is credited

  /** A deposit that took effect. */
  datatype Payment = Payment(sender: Address, value: nat)

  /** The deposits of an action that took effect, in the order of their credits: those that pass both checks
      and whose own call and all calls around it succeed. */
  ghost function Taken(s: Storage, a: Action): seq<Payment>
    decreases a, 0
  {
    match a
    case Deposit(sender, value, during, sendSucceeds) =>
      if value > LAYER_ZERO_FEE && s.totalLocked + (value - LAYER_ZERO_FEE) < TWO_POW_256 && sendSucceeds
      then TakenIn(Entered(s, value), during) + [Payment(sender, value)]
      else []
    case OtherCall(body, callSucceeds) => if callSucceeds then TakenIn(s, body) else []
    case ForcedEther(_) => []
  }

  ghost function TakenIn(s: Storage, actions: seq<Action>): seq<Payment>
    decreases actions, 0
  {
    if actions == [] then [] else Taken(s, actions[0]) + TakenIn(Run(s, actions[0]), actions[1..])
  }

  /** What a user paid in, less the fee of each deposit. */
  function PaidBy(payments: seq<Payment>, user: Address): int {
    if payments == [] then 0
    else
      var p := payments[|payments| - 1];
      PaidBy(payments[..|payments| - 1], user) + (if p.sender == user then p.value - 10000000000000000 else 0)
  }

  lemma {:induction false} PaidByConcat(a: seq<Payment>, b: seq<Payment>, user: Address)
    ensures PaidBy(a + b, user) == PaidBy(a, user) + PaidBy(b, user)
  {
    if b == [] {
      assert a + b == a;
    } else {
      PaidByConcat(a, b[..|b| - 1], user);
      assert (a + b)[..|a + b| - 1] == a + b[..|b| - 1];
    }
  }

  lemma PaidBySnoc(payments: seq<Payment>, p: Payment, user: Address)
    ensures PaidBy(payments + [p], user)
            == PaidBy(payments, user) + (if p.sender == user then p.value - 10000000000000000 else 0)
  {
    assert (payments + [p])[..|payments|] == payments;
  }

  /** Every user is credited what the user's own deposits that took effect paid in less the fee, and nothing
      else. */
  lemma {:induction false} UsersAreCredited(s: Storage, a: Action, pending: nat, user: Address)
    requires Good(s, pending)
    ensures Locked(Run(s, a), user) == Locked(s, user) + PaidBy(Taken(s, a), user)
    decreases a, 0
  {
    hide Good, PaidBy;
    match a
    case Deposit(sender, value, during, sendSucceeds) =>
      NothingPaid(user);
      DepositSucceedsIff(s, sender, value, during, sendSucceeds, pending);
      if Admits(s, value) && sendSucceeds {
        EnteredIsGood(s, value, pending);
        UsersAreCreditedInAll(Entered(s, value), during, pending + (value - LAYER_ZERO_FEE), user);
        PaidBySnoc(TakenIn(Entered(s, value), during), Payment(sender, value), user);
      }
    case OtherCall(body, _) =>
      NothingPaid(user);
      UsersAreCreditedInAll(s, body, pending, user);
    case ForcedEther(_) =>
      NothingPaid(user);
  }

  lemma NothingPaid(user: Address)
    ensures PaidBy([], user) == 0
  {
  }

  lemma {:induction false} UsersAreCreditedInAll(s: Storage, actions: seq<Action>, pending: nat, user: Address)
    requires Good(s, pending)
    ensures Locked(RunAll(s, actions), user) == Locked(s, user) + PaidBy(TakenIn(s, actions), user)
    decreases actions, 0
  {
    hide Good;
    if actions != [] {
      UsersAreCredited(s, actions[0], pending, user);
      RunKeepsGood(s, actions[0], pending);
      UsersAreCreditedInAll(Run(s, actions[0]), actions[1..], pending, user);
      PaidByConcat(Taken(s, actions[0]), TakenIn(Run(s, actions[0]), actions[1..]), user);
    }
  }

  /** The plain case: a deposit above the fee with nothing in between raises its sender by the rest, emits both
      events for the sender, and leaves everyone else as they were. */
  lemma PlainDeposit(s: Storage, sender: Address, value: nat, pending: nat)
    requires Good(s, pending) && value > 10000000000000000
    requires s.totalLocked + (value - 10000000000000000) < TWO_POW_256
    ensures
      var t, amount := Run(s, Deposit(sender, value, [], true)), value - 10000000000000000;
      && Locked(t, sender) == Locked(s, sender) + amount
      && (forall u: Address | u != sender :: Locked(t, u) == Locked(s, u))
      && t.totalLocked == s.totalLocked + amount && t.balance == s.balance + amount
      && t.logs == s.logs + [ETHDeposited(sender, amount), TokensLocked(sender, amount)]
  {
    hide Good;
    DepositSucceedsIff(s, sender, value, [], true, pending);
  }

  // ----- what outside code can observe

  datatype Glimpse = Glimpse(storage: Storage, pending: nat)

  /** Every state that outside code runs in, with the amounts of the deposits suspended at that moment. */
  ghost function Seen(s: Storage, a: Action, pending: nat): seq<Glimpse>
    decreases a, 0
  {
    match a
    case Deposit(sender, value, during, sendSucceeds) =>
      if !Admits(s, value) then []
      else
        var amount := value - LAYER_ZERO_FEE;
        [Glimpse(Entered(s, value), pending + amount)] + SeenAll(Entered(s, value), during, pending + amount)
    case OtherCall(body, _) => SeenAll(s, body, pending)
    case ForcedEther(_) => []
  }

  ghost function SeenAll(s: Storage, actions: seq<Action>, pending: nat): seq<Glimpse>
    decreases actions, 0
  {
    if actions == [] then []
    else Seen(s, actions[0], pending) + [Glimpse(Run(s, actions[0]), pending)]
         + SeenAll(Run(s, actions[0]), actions[1..], pending)
  }

  lemma {:induction false} SeenIsGood(s: Storage, a: Action, pending: nat)
    requires Good(s, pending)
    ensures forall g | g in Seen(s, a, pending) :: Good(g.storage, g.pending)
    decreases a, 0
  {
    hide Good;
    match a
    case Deposit(sender, value, during, sendSucceeds) =>
      if Admits(s, value) {
        EnteredIsGood(s, value, pending);
        SeenAllIsGood(Entered(s, value), during, pending + (value - LAYER_ZERO_FEE));
      }
    case OtherCall(body, _) =>
      SeenAllIsGood(s, body, pending);
    case ForcedEther(_) =>
  }

  /** Whenever outside code runs, at any depth of re-entry, the books balance and the contract is solvent. */
  lemma {:induction false} SeenAllIsGood(s: Storage, actions: seq<Action>, pending: nat)
    requires Good(s, pending)
    ensures forall g | g in SeenAll(s, actions, pending) :: Good(g.storage, g.pending)
    decreases actions, 0
  {
    hide Good;
    if actions != [] {
      SeenIsGood(s, actions[0], pending);
      RunKeepsGood(s, actions[0], pending);
      SeenAllIsGood(Run(s, actions[0]), actions[1..], pending);
    }
  }

  // ----- only forced ether makes the balance exceed what is locked

  predicate NoForcedEther(a: Action)
    decreases a, 0
  {
    match a
    case Deposit(_, _, during, _) => NoForcedEtherIn(during)
    case OtherCall(body, _) => NoForcedEtherIn(body)
    case ForcedEther(_) => false
  }

  predicate NoForcedEtherIn(actions: seq<Action>)
    decreases actions, 0
  {
    actions == [] || (NoForcedEther(actions[0]) && NoForcedEtherIn(actions[1..]))
  }

  function Surplus(s: Storage): int { s.balance - s.totalLocked }

  lemma {:induction false} SurplusKept(s: Storage, a: Action)
    requires NoForcedEther(a)
    ensures Surplus(Run(s, a)) == Surplus(s)
    decreases a, 0
  {
    match a
    case Deposit(_, value, during, _) =>
      if Admits(s, value) { SurplusKeptByAll(Entered(s, value), during); }
    case OtherCall(body, _) =>
      SurplusKeptByAll(s, body);
  }

  lemma {:induction false} SurplusKeptByAll(s: Storage, actions: seq<Action>)
    requires NoForcedEtherIn(actions)
    ensures Surplus(RunAll(s, actions)) == Surplus(s)
    decreases actions, 0
  {
    if actions != [] {
      SurplusKept(s, actions[0]);
      SurplusKeptByAll(Run(s, actions[0]), actions[1..]);
    }
  }

  // ----- the contract as it updates its fields

  class AppSource {
    var totalLocked: nat
    var lockedTokens: map<Address, nat>
    var balance: nat
    var logs: seq<Log>

    ghost function View(): Storage
      reads this
    {
      Storage(totalLocked, lockedTokens, balance, logs)
    }

    constructor ()
      ensures View() == Deployed
    {
      totalLocked, lockedTokens, balance, logs := 0, map[], 0, [];
    }

    /** The ether that arrives with the call is returned with everything else when the call reverts. */
    method DepositETH(sender: Address, value: nat, during: seq<Action>, sendSucceeds: bool) returns (success: bool)
      modifies this
      ensures View() == Run(old(View()), Deposit(sender, value, during, sendSucceeds))
      ensures !success ==> View() == old(View())
      decreases Deposit(sender, value, during, sendSucceeds), 0
    {
      var savedTotal, savedTokens, savedBalance, savedLogs := totalLocked, lockedTokens, balance, logs;
      if value == 0 || value <= LAYER_ZERO_FEE {
        return false;
      }
      balance := balance + value;
      var depositAmount := value - LAYER_ZERO_FEE;
      if totalLocked + depositAmount >= TWO_POW_256 {
        balance := savedBalance;
        return false;
      }
      totalLocked := totalLocked + depositAmount;
      balance := balance - LAYER_ZERO_FEE;
      RunOutsideCode(during);
      var credit := if sender in lockedTokens then lockedTokens[sender] else 0;
      if !sendSucceeds || credit + depositAmount >= TWO_POW_256 {
        totalLocked, lockedTokens, balance, logs := savedTotal, savedTokens, savedBalance, savedLogs;
        return false;
      }
      logs := logs + [ETHDeposited(sender, depositAmount)];
      lockedTokens := lockedTokens[sender := credit + depositAmount];
      logs := logs + [TokensLocked(sender, depositAmount)];
      success := true;
    }

    method RunOutsideCode(actions: seq<Action>)
      modifies this
      ensures View() == RunAll(old(View()), actions)
      decreases actions, 0
    {
      if actions != [] {
        match actions[0] {
          case Deposit(sender, value, during, sendSucceeds) =>
            var _ := DepositETH(sender, value, during, sendSucceeds);
          case OtherCall(body, callSucceeds) =>
            var savedTotal, savedTokens, savedBalance, savedLogs := totalLocked, lockedTokens, balance, logs;
            RunOutsideCode(body);
            if !callSucceeds {
              totalLocked, lockedTokens, balance, logs := savedTotal, savedTokens, savedBalance, savedLogs;
            }
          case ForcedEther(amount) =>
            balance := balance + amount;
        }
        RunOutsideCode(actions[1..]);
      }
    }
  }

  // ----- blocks

  /** The contract's state before the block with the given number. */
  function StateBefore(blocks: seq<seq<Action>>, number: nat): Storage
    requires number <= |blocks|
  {
    if number == 0 then Deployed else RunAll(StateBefore(blocks, number - 1), blocks[number - 1])
  }

  lemma {:induction false} StateBeforeIsGood(blocks: seq<seq<Action>>, number: nat)
    requires number <= |blocks|
    ensures Good(StateBefore(blocks, number), 0)
  {
    hide Good;
    if number == 0 {
      DeployedIsGood();
    } else {
      StateBeforeIsGood(blocks, number - 1);
      RunAllKeepsGood(StateBefore(blocks, number - 1), blocks[number - 1], 0);
    }
  }

  lemma {:induction false} LogsGrow(s: Storage, a: Action)
    ensures s.logs <= Run(s, a).logs
    decreases a, 0
  {
    match a
    case Deposit(_, value, during, _) =>
      if Admits(s, value) { LogsGrowInAll(Entered(s, value), during); }
    case OtherCall(body, _) =>
      LogsGrowInAll(s, body);
    case ForcedEther(_) =>
  }

  lemma {:induction false} LogsGrowInAll(s: Storage, actions: seq<Action>)
    ensures s.logs <= RunAll(s, actions).logs
    decreases actions, 0
  {
    if actions != [] {
      LogsGrow(s, actions[0]);
      LogsGrowInAll(Run(s, actions[0]), actions[1..]);
    }
  }

  /** The events of the blocks numbered start to end - 1, in order. */
  ghost function LogsBetween(blocks: seq<seq<Action>>, start: nat, end: nat): (logs: seq<Log>)
    requires start <= end <= |blocks|
  {
    LogsBetweenIsSuffix(blocks, start, end);
    StateBefore(blocks, end).logs[|StateBefore(blocks, start).logs|..]
  }

  lemma {:induction false} LogsBetweenIsSuffix(blocks: seq<seq<Action>>, start: nat, end: nat)
    requires start <= end <= |blocks|
    ensures StateBefore(blocks, start).logs <= StateBefore(blocks, end).logs
    decreases end
  {
    if start < end {
      LogsBetweenIsSuffix(blocks, start, end - 1);
      LogsGrowInAll(StateBefore(blocks, end - 1), blocks[end - 1]);
    }
  }

  lemma LogsBetweenJoin(blocks: seq<seq<Action>>, start: nat, middle: nat, end: nat)
    requires start <= middle <= end <= |blocks|
    ensures LogsBetween(blocks, start, end) == LogsBetween(blocks, start, middle) + LogsBetween(blocks, middle, end)
  {
    LogsBetweenIsSuffix(blocks, start, middle);
    LogsBetweenIsSuffix(blocks, middle, end);
  }

  lemma {:induction false} LockedByConcat(a: seq<Log>, b: seq<Log>, user: Address)
    ensures LockedBy(a + b, user) == LockedBy(a, user) + LockedBy(b, user)
  {
    if b == [] {
      assert a + b == a;
    } else {
      var i := |b| - 1;
      assert a + b == (a + b[..i]) + [b[i]] && b == b[..i] + [b[i]];
      LockedByConcat(a, b[..i], user);
      LockedBySnoc(a + b[..i], b[i], user);
      LockedBySnoc(b[..i], b[i], user);
    }
  }

  /** The deposits that took effect in the blocks numbered start to end - 1. */
  ghost function TakenBetween(blocks: seq<seq<Action>>, start: nat, end: nat): seq<Payment>
    requires end <= |blocks|
    decreases end
  {
    if end <= start then []
    else TakenBetween(blocks, start, end - 1) + TakenIn(StateBefore(blocks, end - 1), blocks[end - 1])
  }

  /** Over a window of blocks every user's locked amount grows by what the user's deposits paid in. */
  lemma {:induction false} WindowCredits(blocks: seq<seq<Action>>, start: nat, end: nat, user: Address)
    requires start <= end <= |blocks|
    ensures Locked(StateBefore(blocks, end), user)
            == Locked(StateBefore(blocks, start), user) + PaidBy(TakenBetween(blocks, start, end), user)
    decreases end
  {
    hide Good, PaidBy, Locked, TakenIn;
    if start == end {
      NothingPaid(user);
    } else {
      WindowCredits(blocks, start, end - 1, user);
      StateBeforeIsGood(blocks, end - 1);
      UsersAreCreditedInAll(StateBefore(blocks, end - 1), blocks[end - 1], 0, user);
      PaidByConcat(TakenBetween(blocks, start, end - 1), TakenIn(StateBefore(blocks, end - 1), blocks[end - 1]), user);
    }
  }

  ghost predicate Mentions(logs: seq<Log>, user: Address) {
    exists l | l in logs :: l.TokensLocked? && l.user == user
  }

  lemma {:induction false} CreditedIffMentioned(logs: seq<Log>, user: Address)
    requires forall i | 0 <= i < |logs| :: logs[i].amount > 0
    ensures LockedBy(logs, user) > 0 <==> Mentions(logs, user)
  {
    if logs != [] {
      var i := |logs| - 1;
      CreditedIffMentioned(logs[..i], user);
      assert logs == logs[..i] + [logs[i]];
      if Credit(logs[i], user) > 0 { assert logs[i] in logs; }
      if Mentions(logs, user) && Credit(logs[i], user) == 0 {
        var l :| l in logs && l.TokensLocked? && l.user == user;
        assert l in logs[..i];
      }
    }
  }

  /** A user's locked amount changes over a window of blocks exactly when the window logs a `TokensLocked`
      event of that user, and it is then not zero at the end of the window. */
  lemma ChangedIffLogged(blocks: seq<seq<Action>>, start: nat, end: nat, user: Address)
    requires start <= end <= |blocks|
    ensures
      var before, after := Locked(StateBefore(blocks, start), user), Locked(StateBefore(blocks, end), user);
      && before <= after
      && (before != after <==> Mentions(LogsBetween(blocks, start, end), user))
      && (before != after ==> after > 0)
      && after < TWO_POW_256
  {
    var s, t := StateBefore(blocks, start), StateBefore(blocks, end);
    var w := LogsBetween(blocks, start, end);
    StateBeforeIsGood(blocks, start);
    StateBeforeIsGood(blocks, end);
    LogsBetweenIsSuffix(blocks, start, end);
    assert t.logs == s.logs + w;
    LockedByConcat(s.logs, w, user);
    CreditedIffMentioned(w, user);
    CreditNeverOverflows(t, user, 0, 0);
    assert Locked(s, user) == LockedBy(s.logs, user) && Locked(t, user) == LockedBy(t.logs, user);
  }
}
