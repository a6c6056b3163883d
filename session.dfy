/** The session controller: one run of the ATM. It loads the table, logs in by PIN and
    serves menu requests against the one active record, saving the table after every
    change of balance. */
module Session {
  import opened Accounts
  import opened RecordStore

  /** The menu choices. */
  const WithdrawChoice: int := 1
  const DepositChoice: int := 2
  const BalanceChoice: int := 3
  const ExitChoice: int := 4

  /** One menu request as read from the console: input that is not a number, or a
      numeric choice with the amount (in cents) read after it when the choice asks
      for one (`None` when that amount is not a number). */
  datatype Request = Unreadable | Choice(option: int, amount: Option<int>)

  /** What the machine reports for one request. */
  datatype Reply =
    | InvalidInput
    | InvalidAmount
    | InsufficientBalance
    | Withdrawn(amount: int, balance: int)
    | Deposited(amount: int, balance: int)
    | CurrentBalance(balance: int)
    | Goodbye(name: string)
    | InvalidOption

  /** The effect of one request on the active balance: the new balance, the reply,
      whether the table is saved, and whether the session ends. */
  datatype Effect = Effect(balance: int, reply: Reply, persist: bool, exit: bool)

  /** Index of the first record holding `pin`, or -1 when no record does. */
  function FirstMatch(records: seq<Account>, pin: int): (i: int)
    ensures -1 <= i < |records|
    ensures 0 <= i ==> records[i].pin == pin && forall j :: 0 <= j < i ==> records[j].pin != pin
    ensures i == -1 <==> forall j :: 0 <= j < |records| ==> records[j].pin != pin
  {
    if records == [] then -1
    else if records[0].pin == pin then 0
    else
      var k := FirstMatch(records[1..], pin);
      if k == -1 then -1 else k + 1
  }

  /** One menu request served against a balance of `balance` cents held by `name`. */
  function Transact(balance: int, name: string, req: Request): (e: Effect)
    // a withdrawal of a positive amount within the balance takes exactly that amount
    ensures req.Choice? && req.option == WithdrawChoice && req.amount.Some? && 0 < req.amount.value <= balance ==>
      e.reply == Withdrawn(req.amount.value, balance - req.amount.value)
    // one above the balance is refused
    ensures e.reply == InsufficientBalance <==>
      req.Choice? && req.option == WithdrawChoice && req.amount.Some? && 0 < req.amount.value && balance < req.amount.value
    // a deposit of a positive amount adds exactly that amount
    ensures req.Choice? && req.option == DepositChoice && req.amount.Some? && 0 < req.amount.value ==>
      e.reply == Deposited(req.amount.value, balance + req.amount.value)
    // an amount that is missing or not positive is refused for both
    ensures e.reply == InvalidAmount <==>
      req.Choice? && (req.option == WithdrawChoice || req.option == DepositChoice)
      && (req.amount.None? || req.amount.value <= 0)
    ensures req.Choice? && req.option == BalanceChoice ==> e.reply == CurrentBalance(balance)
    // the balance moves only by a reported withdrawal or deposit, and then by its amount
    ensures e.reply.Withdrawn? ==> e.balance == e.reply.balance == balance - e.reply.amount && 0 < e.reply.amount
    ensures e.reply.Deposited? ==> e.balance == e.reply.balance == balance + e.reply.amount && 0 < e.reply.amount
    ensures !e.reply.Withdrawn? && !e.reply.Deposited? ==> e.balance == balance
    // every change of balance, and nothing else, is saved; a withdrawal never overdraws
    ensures e.persist <==> e.reply.Withdrawn? || e.reply.Deposited?
    ensures e.reply.Withdrawn? ==> e.balance >= 0
    ensures e.exit <==> req.Choice? && req.option == ExitChoice
    // a withdrawal or deposit is reported only for its own choice
    ensures e.reply.Withdrawn? ==> req.Choice? && req.option == WithdrawChoice
    ensures e.reply.Deposited? ==> req.Choice? && req.option == DepositChoice
    // unreadable input, Check Balance, Exit and unknown options change nothing and save nothing
    ensures req.Unreadable? || (req.option != WithdrawChoice && req.option != DepositChoice) ==>
      e.balance == balance && !e.persist
    ensures req.Unreadable? <==> e.reply == InvalidInput
    ensures req.Choice? && req.option == ExitChoice ==> e.reply == Goodbye(name)
    ensures e.reply == InvalidOption <==>
      req.Choice? && !(WithdrawChoice <= req.option <= ExitChoice)
  {
    match req
    case Unreadable => Effect(balance, InvalidInput, false, false)
    case Choice(option, amount) =>
      if option == WithdrawChoice then
        if amount.None? || amount.value <= 0 then Effect(balance, InvalidAmount, false, false)
        else if amount.value > balance then Effect(balance, InsufficientBalance, false, false)
        else Effect(balance - amount.value, Withdrawn(amount.value, balance - amount.value), true, false)
      else if option == DepositChoice then
        if amount.None? || amount.value <= 0 then Effect(balance, InvalidAmount, false, false)
        else Effect(balance + amount.value, Deposited(amount.value, balance + amount.value), true, false)
      else if option == BalanceChoice then Effect(balance, CurrentBalance(balance), false, false)
      else if option == ExitChoice then Effect(balance, Goodbye(name), false, true)
      else Effect(balance, InvalidOption, false, false)
  }

  /** A deposit of what was just withdrawn restores the balance. */
  lemma WithdrawThenDepositRestores(balance: int, name: string, amount: int)
    requires 0 < amount <= balance
    ensures var w := Transact(balance, name, Choice(WithdrawChoice, Some(amount)));
      w.reply.Withdrawn? && Transact(w.balance, name, Choice(DepositChoice, Some(amount))).balance == balance
  {
  }

  /** The session after login: the table, the active index, the backing file, the
      replies so far and whether Exit was chosen. */
  datatype State = State(records: seq<Account>, active: nat, disk: Disk, log: seq<Reply>, done: bool)

  /** One pass of the menu loop. */
  function Step(s: State, req: Request): (t: State)
    requires s.active < |s.records|
    ensures t.active == s.active && |t.records| == |s.records|
    ensures forall j :: 0 <= j < |s.records| && j != s.active ==> t.records[j] == s.records[j]
    ensures t.records[s.active].pin == s.records[s.active].pin
    ensures t.records[s.active].name == s.records[s.active].name
    ensures t.records != s.records ==> t.disk == SaveTo(s.disk, t.records)
    ensures t.disk == s.disk || t.disk == SaveTo(s.disk, t.records)
    ensures t.records == s.records ==> t.disk == s.disk
    ensures s.done ==> t == s
  {
    if s.done then s
    else
      var account := s.records[s.active];
      var e := Transact(account.balance, account.name, req);
      var records := s.records[s.active := account.(balance := e.balance)];
      State(records, s.active, if e.persist then SaveTo(s.disk, records) else s.disk, s.log + [e.reply], e.exit)
  }

  /** The menu loop run over a sequence of requests. */
  function Replay(s: State, requests: seq<Request>): (t: State)
    requires s.active < |s.records|
    ensures t.active == s.active && |t.records| == |s.records|
    ensures forall j :: 0 <= j < |s.records| && j != s.active ==> t.records[j] == s.records[j]
    ensures t.records[s.active].pin == s.records[s.active].pin
    ensures t.records[s.active].name == s.records[s.active].name
    ensures s.records[s.active].balance >= 0 ==> t.records[s.active].balance >= 0
    ensures t.disk.writable == s.disk.writable
    ensures !s.disk.writable ==> t.disk == s.disk
    decreases |requests|
  {
    if requests == [] then s
    else Step(Replay(s, requests[..|requests| - 1]), requests[|requests| - 1])
  }

  /** After Exit the remaining requests are never served. */
  lemma {:induction false} ReplayStopsAtExit(s: State, requests: seq<Request>, i: nat)
    requires s.active < |s.records| && i <= |requests|
    requires Replay(s, requests[..i]).done
    ensures Replay(s, requests) == Replay(s, requests[..i])
    decreases |requests|
  {
    if i < |requests| {
      var prefix := requests[..|requests| - 1];
      assert prefix[..i] == requests[..i];
      ReplayStopsAtExit(s, prefix, i);
    } else {
      assert requests[..i] == requests;
    }
  }

  lemma StepKeepsStoreInSync(s: State, req: Request)
    requires s.active < |s.records| && s.disk.writable
    requires LoadFile(s.disk.contents) == Loaded(s.records)
    ensures LoadFile(Step(s, req).disk.contents) == Loaded(Step(s, req).records)
  {
    var t := Step(s, req);
    if t.disk == SaveTo(s.disk, t.records) {
      LoadedRecordsSavable(s.disk.contents);
      forall j | 0 <= j < |t.records| ensures NameOk(t.records[j].name) {
        assert t.records[j].name == s.records[j].name;
      }
      SaveLoadRoundTrip(t.records);
      assert t.disk.contents == Some(FormatAll(t.records));
    } else {
      assert t.records == s.records && t.disk == s.disk;
    }
  }

  /** With a writable file, after every request the file reloads to exactly the table
      in memory. */
  lemma {:induction false} ReplayKeepsStoreInSync(s: State, requests: seq<Request>)
    requires s.active < |s.records| && s.disk.writable
    requires LoadFile(s.disk.contents) == Loaded(s.records)
    ensures LoadFile(Replay(s, requests).disk.contents) == Loaded(Replay(s, requests).records)
    decreases |requests|
  {
    if requests != [] {
      var prefix := requests[..|requests| - 1];
      ReplayKeepsStoreInSync(s, prefix);
      StepKeepsStoreInSync(Replay(s, prefix), requests[|requests| - 1]);
    }
  }

  /** How a run of the machine ends. */
  datatype Outcome =
    | StoreNotFound
    | StoreCorrupt(line: nat)
    | PinUnreadable
    | PinMismatch
    | Served(name: string, replies: seq<Reply>)

  /** A finished run: the backing file afterwards and the outcome. */
  datatype Run = Run(disk: Disk, outcome: Outcome)

  /** One run of the machine: load, a single login attempt, then the menu loop. */
  function SessionRun(disk: Disk, pin: Option<int>, requests: seq<Request>): (r: Run)
    ensures r.outcome.Served? <==>
      LoadFile(disk.contents).Loaded? && pin.Some? && FirstMatch(LoadFile(disk.contents).records, pin.value) != -1
    ensures !r.outcome.Served? ==> r.disk == disk
    ensures !disk.writable ==> r.disk == disk
    // each aborted run reports why it stopped
    ensures r.outcome == StoreNotFound <==> disk.contents.None?
    ensures LoadFile(disk.contents).Corrupt? ==> r.outcome == StoreCorrupt(LoadFile(disk.contents).line)
    ensures r.outcome == PinUnreadable <==> LoadFile(disk.contents).Loaded? && pin.None?
    ensures r.outcome == PinMismatch <==>
      LoadFile(disk.contents).Loaded? && pin.Some? && FirstMatch(LoadFile(disk.contents).records, pin.value) == -1
  {
    match LoadFile(disk.contents)
    case NotFound => Run(disk, StoreNotFound)
    case Corrupt(line) => Run(disk, StoreCorrupt(line))
    case Loaded(records) =>
      if pin.None? then Run(disk, PinUnreadable)
      else
        var active := FirstMatch(records, pin.value);
        if active == -1 then Run(disk, PinMismatch)
        else
          var t := Replay(State(records, active, disk, [], false), requests);
          Run(t.disk, Served(records[active].name, t.log))
  }

  /** With a writable file, a whole session leaves a file that reloads to the table it
      started from with at most the logged-in account's balance changed. */
  lemma SessionChangesOnlyActiveBalance(disk: Disk, pin: Option<int>, requests: seq<Request>)
    requires disk.writable
    requires SessionRun(disk, pin, requests).outcome.Served?
    ensures var before := LoadFile(disk.contents).records;
      var active := FirstMatch(before, pin.value);
      var after := LoadFile(SessionRun(disk, pin, requests).disk.contents);
      after.Loaded? && |after.records| == |before|
      && (forall j :: 0 <= j < |before| && j != active ==> after.records[j] == before[j])
      && after.records[active].pin == before[active].pin
      && after.records[active].name == before[active].name
  {
    var before := LoadFile(disk.contents).records;
    var active := FirstMatch(before, pin.value);
    ReplayKeepsStoreInSync(State(before, active, disk, [], false), requests);
  }

  /** The login search: the first record whose pin is `pin`, or -1. */
  method FindPin(list: AccountList, pin: int) returns (index: int)
    requires list.Valid()
    ensures index == FirstMatch(list.Records(), pin)
  {
    index := -1;
    var i := 0;
    while i < list.count
      invariant 0 <= i <= list.count
      invariant forall j :: 0 <= j < i ==> list.accounts[j].pin != pin
    {
      if list.accounts[i].pin == pin {
        index := i;
        break;
      }
      i := i + 1;
    }
    assert index == -1 ==> forall j :: 0 <= j < list.count ==> list.Records()[j].pin != pin;
  }

  /** One pass of the menu loop on the table in place: only the active record's
      balance may change, and the table is saved after each change. */
  method Serve(list: AccountList, active: nat, disk: Disk, req: Request) returns (written: Disk, reply: Reply, exit: bool)
    requires list.Valid() && active < list.count
    modifies list.accounts
    ensures list.Valid()
    ensures var before := old(list.Records());
      var e := Transact(before[active].balance, before[active].name, req);
      list.Records() == before[active := before[active].(balance := e.balance)]
      && written == (if e.persist then SaveTo(disk, list.Records()) else disk)
      && reply == e.reply && exit == e.exit
  {
    var account := list.accounts[active];
    written, exit := disk, false;
    match req
    case Unreadable =>
      reply := InvalidInput;
    case Choice(option, amount) =>
      if option == WithdrawChoice {
        if amount.None? || amount.value <= 0 {
          reply := InvalidAmount;
        } else if amount.value > account.balance {
          reply := InsufficientBalance;
        } else {
          list.accounts[active] := account.(balance := account.balance - amount.value);
          reply := Withdrawn(amount.value, account.balance - amount.value);
          written := list.Save(disk);
        }
      } else if option == DepositChoice {
        if amount.None? || amount.value <= 0 {
          reply := InvalidAmount;
        } else {
          list.accounts[active] := account.(balance := account.balance + amount.value);
          reply := Deposited(amount.value, account.balance + amount.value);
          written := list.Save(disk);
        }
      } else if option == BalanceChoice {
        reply := CurrentBalance(account.balance);
      } else if option == ExitChoice {
        reply := Goodbye(account.name);
        exit := true;
      } else {
        reply := InvalidOption;
      }
  }

  /** The menu loop on the table in place: serve requests until Exit is chosen or
      the input ends. */
  method Menu(list: AccountList, active: nat, disk: Disk, requests: seq<Request>)
    returns (final: Disk, log: seq<Reply>, done: bool)
    requires list.Valid() && active < list.count
    modifies list.accounts
    ensures list.Valid()
    ensures State(list.Records(), active, final, log, done)
      == Replay(State(old(list.Records()), active, disk, [], false), requests)
  {
    ghost var start := State(list.Records(), active, disk, [], false);
    final, log, done := disk, [], false;
    var i := 0;
    while i < |requests| && !done
      invariant 0 <= i <= |requests|
      invariant list.Valid() && active < list.count
      invariant State(list.Records(), active, final, log, done) == Replay(start, requests[..i])
    {
      ghost var before := State(list.Records(), active, final, log, done);
      assert requests[..i + 1][..i] == requests[..i];
      var written, reply, exit := Serve(list, active, final, requests[i]);
      assert Step(before, requests[i]) == State(list.Records(), active, written, log + [reply], exit);
      final, log, done := written, log + [reply], exit;
      i := i + 1;
    }
    if i < |requests| {
      ReplayStopsAtExit(start, requests, i);
    } else {
      assert requests[..i] == requests;
    }
  }

  /** The whole program run: load the table, read one PIN, search it, then the menu. */
  method AtmMachine(disk: Disk, pin: Option<int>, requests: seq<Request>) returns (final: Disk, outcome: Outcome)
    ensures Run(final, outcome) == SessionRun(disk, pin, requests)
  {
    final := disk;
    var list := new AccountList();
    var loaded := list.Load(disk.contents);
    if !loaded {
      outcome := if disk.contents.None? then StoreNotFound else StoreCorrupt(list.count + 1);
      return;
    }
    if pin.None? {
      outcome := PinUnreadable;
      return;
    }
    ghost var records := list.Records();
    var index := FindPin(list, pin.value);
    if index == -1 {
      outcome := PinMismatch;
      return;
    }
    var name := list.accounts[index].name;
    assert name == records[index].name;
    var log, done;
    final, log, done := Menu(list, index, disk, requests);
    ghost var t := Replay(State(records, index, disk, [], false), requests);
    assert final == t.disk && log == t.log;
    outcome := Served(name, log);
  }
}
