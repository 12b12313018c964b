/**
  The cached backplane window of the SDIO host (bcmsdh.c). The device decodes an access
  relative to the window in its three address registers; the host remembers in `sbwad` what
  it believes that window to be and skips reprogramming it.
 */
module SbWindow {
  import opened Modular

  const SI_ENUM_BASE: nat := 0x18000000
  const RETRY_LIMIT: nat := 2        // SDIOH_API_ACCESS_RETRY_LIMIT
  const WINDOW: nat := 0x8000        // one more than SBSDIO_SB_OFT_ADDR_MASK
  const ACCESS_2_4B_FLAG: nat := 0x8000
  const FAILED: nat := 0xFFFFFFFF
  const BCME_ERROR: int := -1
  const BCME_SDIO_ERROR: int := -35
  const SDIO_ERROR: nat := 0x1_0000_0000 + BCME_SDIO_ERROR  // as a 32-bit word

  type Addr = x: nat | x < 0x1_0000_0000 witness 0

  /** One try to write a register: what the host controller reports, and whether the byte reached the device. */
  datatype Attempt = Attempt(ok: bool, arrived: bool)

  /** The whole of a write with its retries. */
  datatype Outcome = Outcome(ok: bool, taken: bool, next: nat)

  /** The address registers of the device, low, middle and high. */
  datatype Regs = Regs(low: nat, mid: nat, high: nat)

  function Window(r: Regs): nat {
    r.high * 0x1000000 + r.mid * 0x10000 + r.low * 0x100
  }

  /** `address & ~SBSDIO_SB_OFT_ADDR_MASK`. */
  function Bar0(address: Addr): nat {
    address - address % WINDOW
  }

  /** The bytes written for an address: only the top bit of the low register is used. */
  function Bytes(address: Addr): Regs {
    Regs(address / 0x100 % 0x100 / 0x80 * 0x80, address / 0x10000 % 0x100, address / 0x1000000 % 0x100)
  }

  lemma BytesAreBar0(address: Addr)
    ensures Window(Bytes(address)) == Bar0(address)
  {
    var page, z := address / 0x100, address % 0x100;
    var half, l := page / 0x100, page % 0x100;
    ModUnique(address, half, l * 0x100 + z, 0x10000);
    ModUnique(address, half * 2 + l / 0x80, l % 0x80 * 0x100 + z, WINDOW);
    ModUnique(address, half / 0x100, half % 0x100 * 0x10000 + l * 0x100 + z, 0x1000000);
  }

  // ---------------------------------------------------------------- the protocol on values

  datatype State = State(sbwad: nat, regs: Regs)

  /** What is remembered, unless it is the mark for "unknown", is what the device has. */
  ghost predicate Sound(s: State) {
    s.sbwad != 0 ==> s.sbwad == Window(s.regs)
  }

  /** A write on a bus whose t-th try ends as bus(t). */
  function Written(bus: nat -> Attempt, t: nat, retry: nat): Outcome
    decreases RETRY_LIMIT - retry
  {
    if bus(t).ok then Outcome(true, true, t + 1)
    else if retry < RETRY_LIMIT then
      var rest := Written(bus, t + 1, retry + 1);
      Outcome(rest.ok, bus(t).arrived || rest.taken, rest.next)
    else Outcome(false, bus(t).arrived, t + 1)
  }

  /** There are three tries; the byte is in the device if one that was made brought it there. */
  lemma WrittenTries(bus: nat -> Attempt, t: nat)
    ensures var o, n := Written(bus, t, 0), if bus(t).ok then 1 else if bus(t + 1).ok then 2 else 3;
      && (o.ok <==> bus(t).ok || bus(t + 1).ok || bus(t + 2).ok)
      && o.next == t + n
      && (o.taken <==> o.ok || exists k :: t <= k < t + n && bus(k).arrived)
  {
    assert Written(bus, t + 2, 2) == Outcome(bus(t + 2).ok, bus(t + 2).ok || bus(t + 2).arrived, t + 3);
    assert Written(bus, t + 1, 1).ok <==> bus(t + 1).ok || bus(t + 2).ok;
  }

  datatype Reg = SbAddrLow | SbAddrMid | SbAddrHigh

  function Put(r: Regs, reg: Reg, taken: bool, b: nat): Regs {
    if !taken then r
    else match reg
      case SbAddrLow => r.(low := b)
      case SbAddrMid => r.(mid := b)
      case SbAddrHigh => r.(high := b)
  }

  /** The three writes, each only if the one before it succeeded. */
  function Programmed(r: Regs, address: Addr, bus: nat -> Attempt, t: nat): (Regs, Outcome) {
    var bytes := Bytes(address);
    var o1 := Written(bus, t, 0);
    var r1 := Put(r, SbAddrLow, o1.taken, bytes.low);
    if !o1.ok then (r1, o1) else
    var o2 := Written(bus, o1.next, 0);
    var r2 := Put(r1, SbAddrMid, o2.taken, bytes.mid);
    if !o2.ok then (r2, o2) else
    var o3 := Written(bus, o2.next, 0);
    (Put(r2, SbAddrHigh, o3.taken, bytes.high), o3)
  }

  predicate Skips(s: State, address: Addr, force: bool) {
    Bar0(address) == s.sbwad && !force
  }

  function Set(s: State, address: Addr, force: bool, bus: nat -> Attempt, t: nat): (State, Outcome) {
    if Skips(s, address, force) then (s, Outcome(true, true, t))
    else
      var (r, o) := Programmed(s.regs, address, bus, t);
      (State(if o.ok then Bar0(address) else 0, r), o)
  }

  lemma {:induction false} OkArrived(bus: nat -> Attempt, t: nat, retry: nat)
    ensures Written(bus, t, retry).ok ==> Written(bus, t, retry).taken
    ensures t < Written(bus, t, retry).next
    decreases RETRY_LIMIT - retry
  {
    if !bus(t).ok && retry < RETRY_LIMIT {
      OkArrived(bus, t + 1, retry + 1);
    }
  }

  lemma ProgrammedWindow(r: Regs, address: Addr, bus: nat -> Attempt, t: nat)
    ensures var (r', o) := Programmed(r, address, bus, t); o.ok ==> Window(r') == Bar0(address)
  {
    BytesAreBar0(address);
    var o1 := Written(bus, t, 0);
    OkArrived(bus, t, 0);
    OkArrived(bus, o1.next, 0);
    var o2 := Written(bus, o1.next, 0);
    OkArrived(bus, o2.next, 0);
  }

  /** Whatever fails, the remembered window stays sound. */
  lemma SetKeepsSound(s: State, address: Addr, force: bool, bus: nat -> Attempt, t: nat)
    requires Sound(s)
    ensures Sound(Set(s, address, force, bus, t).0)
  {
    ProgrammedWindow(s.regs, address, bus, t);
  }

  /**
    A call that reports success leaves the device at the window of the address, unless the
    address lies in window 0, the cache is marked unknown and the device is elsewhere.
   */
  lemma SetReaches(s: State, address: Addr, force: bool, bus: nat -> Attempt, t: nat)
    requires Sound(s)
    ensures var (s', o) := Set(s, address, force, bus, t);
      o.ok ==> (Window(s'.regs) == Bar0(address)
                <==> !(Skips(s, address, force) && Bar0(address) == 0 && Window(s.regs) != 0))
  {
    ProgrammedWindow(s.regs, address, bus, t);
  }

  ghost predicate Reaches(s: State, address: Addr, force: bool, bus: nat -> Attempt, t: nat) {
    var (s', o) := Set(s, address, force, bus, t);
    o.ok ==> Window(s'.regs) == Bar0(address)
  }

  /**
    From what the host can see: whatever the device holds, as long as that is sound, and however
    the writes end, success means the window of the address, if and only if this is not an
    unforced call for window 0 while the window is unknown.
   */
  lemma SetReachesAlways(sbwad: nat, address: Addr, force: bool)
    ensures (forall r, bus, t :: Sound(State(sbwad, r)) ==> Reaches(State(sbwad, r), address, force, bus, t))
       <==> !(sbwad == 0 && Bar0(address) == 0 && !force)
  {
    if sbwad == 0 && Bar0(address) == 0 && !force {
      var r, bus := Regs(0x80, 0, 0), (n: nat) => Attempt(true, true);
      assert !Reaches(State(sbwad, r), address, force, bus, 0);
    } else {
      forall r, bus, t | Sound(State(sbwad, r)) ensures Reaches(State(sbwad, r), address, force, bus, t) {
        SetReaches(State(sbwad, r), address, force, bus, t);
      }
    }
  }

  /** A call goes without a write exactly when it may and the window remembered is that of the address. */
  lemma WritesIff(s: State, address: Addr, force: bool, bus: nat -> Attempt, t: nat)
    ensures var (s', o) := Set(s, address, force, bus, t);
      o.next == t <==> !force && s.sbwad == address - address % 0x8000
  {
    var o1 := Written(bus, t, 0);
    var o2 := Written(bus, o1.next, 0);
    OkArrived(bus, t, 0);
    OkArrived(bus, o1.next, 0);
    OkArrived(bus, o2.next, 0);
  }

  /** After a call that succeeded, calls for the same window need no write; after one that failed, those for every window but 0 do. */
  lemma SetThenSkip(s: State, address: Addr, force: bool, bus: nat -> Attempt, t: nat, other: Addr, t': nat)
    requires other - other % 0x8000 == address - address % 0x8000
    ensures var (s', o) := Set(s, address, force, bus, t);
      var (s'', o') := Set(s', other, false, bus, t');
      if o.ok then s'' == s' && o' == Outcome(true, true, t') else o'.next == t' ==> Bar0(address) == 0
  {
    var (s', o) := Set(s, address, force, bus, t);
    WritesIff(s', other, false, bus, t');
  }

  datatype Call = Call(address: Addr, force: bool)

  /** The state after a run of calls from a freshly attached host. */
  function Run(calls: seq<Call>, bus: nat -> Attempt): (State, nat) {
    if calls == [] then (State(SI_ENUM_BASE, Bytes(SI_ENUM_BASE)), 0)
    else
      var (s, t) := Run(calls[..|calls| - 1], bus);
      var c := calls[|calls| - 1];
      var (s', o) := Set(s, c.address, c.force, bus, t);
      (s', o.next)
  }

  lemma {:induction false} RunSound(calls: seq<Call>, bus: nat -> Attempt)
    ensures Sound(Run(calls, bus).0)
  {
    if calls == [] {
      BytesAreBar0(SI_ENUM_BASE);
    } else {
      var (s, t) := Run(calls[..|calls| - 1], bus);
      var c := calls[|calls| - 1];
      RunSound(calls[..|calls| - 1], bus);
      SetKeepsSound(s, c.address, c.force, bus, t);
    }
  }

  /**
    In every run, a call that may skip and succeeds ends with the same device window as one
    that always reprograms and succeeds, for every window but 0.
   */
  lemma SkippingIsReprogramming(calls: seq<Call>, bus: nat -> Attempt, address: Addr, t: nat, bus': nat -> Attempt, t': nat)
    ensures var s := Run(calls, bus).0;
      var (skip, o) := Set(s, address, false, bus, t);
      var (always, o') := Set(s, address, true, bus', t');
      o.ok && o'.ok && Bar0(address) != 0 ==> Window(skip.regs) == Window(always.regs) == Bar0(address)
  {
    RunSound(calls, bus);
    var s := Run(calls, bus).0;
    SetReaches(s, address, false, bus, t);
    SetReaches(s, address, true, bus', t');
  }

  /** For window 0 it can go wrong: a failed write that left the device at window 0x8000 is followed by a skipped one. */
  lemma WindowZeroBreaks()
    ensures var bus := (n: nat) => Attempt(n == 0, n == 0);
      var s := Run([Call(0x8000, false)], bus).0;
      var (s', o) := Set(s, 0x10, false, bus, 9);
      o.ok && Window(s'.regs) != Bar0(0x10)
  {
    var bus := (n: nat) => Attempt(n == 0, n == 0);
    assert [Call(0x8000, false)][..0] == [];
    var s0 := State(SI_ENUM_BASE, Bytes(SI_ENUM_BASE));
    assert Run([], bus) == (s0, 0);
    var o2 := Written(bus, 1, 0);
    assert Written(bus, 3, 2) == Outcome(false, false, 4);
    assert Written(bus, 2, 1) == Outcome(false, false, 4);
    assert o2 == Outcome(false, false, 4);
    assert Run([Call(0x8000, false)], bus).0 == State(0, s0.regs.(low := 0x80));
  }

  // ---------------------------------------------------------------- the host

  /** An access as the device sees it. */
  datatype Access = Access(write: bool, address: nat, size: nat, data: nat)

  /** The low bytes of a word. */
  function Cut(word: Addr, size: nat): nat {
    if size == 1 then word % 0x100 else if size == 2 then word % 0x10000 else word
  }

  /** They are what is left when the bytes above are taken away. */
  lemma CutBelow(word: Addr)
    ensures Cut(word, 1) < 0x100 && (word - Cut(word, 1)) % 0x100 == 0
    ensures Cut(word, 2) < 0x10000 && (word - Cut(word, 2)) % 0x10000 == 0
    ensures Cut(word, 4) == word
  {
  }

  class Bcmsdh {
    const bus: nat -> Attempt     // how the tries to write an address register end
    var sbwad: nat
    var regfail: bool
    var regs: Regs                // in the device
    var clock: nat                // tries so far
    ghost var log: seq<Access>

    ghost function Abs(): State
      reads this
    {
      State(sbwad, regs)
    }

    ghost predicate Valid()
      reads this
    {
      Sound(Abs())
    }

    /** `bcmsdh_attach`: the device starts at the enumeration space. */
    constructor (bus: nat -> Attempt)
      ensures Valid() && this.bus == bus && clock == 0 && Abs() == Run([], bus).0
    {
      this.bus, sbwad, regfail, regs, clock, log := bus, SI_ENUM_BASE, false, Bytes(SI_ENUM_BASE), 0, [];
      new;
      BytesAreBar0(SI_ENUM_BASE);
    }

    /** `bcmsdh_cfg_write` of an address register: up to three tries. */
    method CfgWrite(reg: Reg, data: nat) returns (err: bool)
      modifies this`regs, this`clock
      ensures var o := Written(bus, old(clock), 0);
        err == !o.ok && clock == o.next && regs == Put(old(regs), reg, o.taken, data)
    {
      var retry, status, taken := 0, false, false;
      while true
        invariant retry <= RETRY_LIMIT && regs == Put(old(regs), reg, taken, data)
        invariant var rest := Written(bus, clock, retry);
          Written(bus, old(clock), 0) == Outcome(rest.ok, taken || rest.taken, rest.next)
        decreases RETRY_LIMIT - retry
      {
        var attempt := bus(clock);
        status := attempt.ok;
        if attempt.ok || attempt.arrived {
          regs, taken := Put(regs, reg, true, data), true;
        }
        clock := clock + 1;
        if status || retry >= RETRY_LIMIT {
          break;
        }
        retry := retry + 1;
      }
      err := !status;
    }

    /** `bcmsdhsdio_set_sbaddr_window`. */
    method SetWindow(address: Addr, force: bool) returns (err: bool)
      requires Valid()
      modifies this`sbwad, this`regs, this`clock
      ensures Valid()
      ensures var (s, o) := Set(old(Abs()), address, force, bus, old(clock));
        Abs() == s && clock == o.next && err == !o.ok
    {
      SetKeepsSound(Abs(), address, force, bus, clock);
      var bar0 := Bar0(address);
      err := false;
      if bar0 != sbwad || force {
        err := CfgWrite(SbAddrLow, address / 0x100 % 0x100 / 0x80 * 0x80);
        if !err {
          err := CfgWrite(SbAddrMid, address / 0x10000 % 0x100);
        }
        if !err {
          err := CfgWrite(SbAddrHigh, address / 0x1000000 % 0x100);
        }
        sbwad := if !err then bar0 else 0;
      }
    }

    /** An access at a place in the window, as the device decodes it; `done` and `word` are its answer. */
    method Request(write: bool, at: nat, size: nat, data: nat, done: bool) returns (status: bool)
      modifies this`log
      ensures status == done
      ensures log == old(log) + [Access(write, Window(regs) + at % WINDOW, size, data)]
    {
      log := log + [Access(write, Window(regs) + at % WINDOW, size, data)];
      status := done;
    }

    /** `bcmsdh_reg_write`: apart from window 0, the device sees the access at the address meant, or not at all. */
    method RegWrite(addr: Addr, size: nat, data: nat, done: bool) returns (r: nat)
      requires Valid()
      modifies this
      ensures Valid()
      ensures var (s, o) := Set(old(Abs()), addr, false, bus, old(clock));
        && Abs() == s && clock == o.next
        && (!o.ok ==> log == old(log) && r == SDIO_ERROR && regfail == old(regfail))
        && (o.ok ==> |log| == |old(log)| + 1 && log[..|old(log)|] == old(log))
        && (o.ok ==> r == (if done then 0 else FAILED) && regfail == !done)
        && (o.ok && Bar0(addr) != 0 ==> log[|old(log)|] == Access(true, addr, size, data))
    {
      SetReaches(Abs(), addr, false, bus, clock);
      var err := SetWindow(addr, false);
      if err {
        return SDIO_ERROR;
      }
      var at := addr % WINDOW + if size == 4 then ACCESS_2_4B_FLAG else 0;
      var status := Request(true, at, size, data, done);
      regfail := !status;
      r := if status then 0 else FAILED;
    }

    /** `bcmsdh_reg_read`: the word is cut to the size asked for; other sizes fail after the access. */
    method RegRead(addr: Addr, size: nat, done: bool, word: Addr) returns (r: nat)
      requires Valid()
      modifies this
      ensures Valid()
      ensures var (s, o) := Set(old(Abs()), addr, false, bus, old(clock));
        && Abs() == s && clock == o.next
        && (!o.ok ==> log == old(log) && r == FAILED && regfail == old(regfail))
        && (o.ok ==> |log| == |old(log)| + 1 && log[..|old(log)|] == old(log))
        && (o.ok ==> regfail == !(done && size in {1, 2, 4}) && r == (if regfail then FAILED else Cut(word, size)))
        && (o.ok && Bar0(addr) != 0 ==> log[|old(log)|] == Access(false, addr, size, 0))
    {
      SetReaches(Abs(), addr, false, bus, clock);
      var err := SetWindow(addr, false);
      if err {
        return FAILED;
      }
      var at := addr % WINDOW + if size == 4 then ACCESS_2_4B_FLAG else 0;
      var status := Request(false, at, size, 0, done);
      regfail := !status;
      if status {
        if size == 1 {
          return word % 0x100;
        } else if size == 2 {
          return word % 0x10000;
        } else if size == 4 {
          return word;
        }
        regfail := true;
      }
      r := FAILED;
    }

    /** `bcmsdh_send_buf` and `bcmsdh_recv_buf`, without asynchronous requests; `wide` is the four-byte flag. */
    method TransferBuf(write: bool, addr: Addr, wide: bool, nbytes: nat, done: bool) returns (r: int)
      requires Valid()
      modifies this
      ensures Valid()
      ensures var (s, o) := Set(old(Abs()), addr, false, bus, old(clock));
        && Abs() == s && clock == o.next && regfail == old(regfail)
        && (!o.ok ==> log == old(log) && r == BCME_SDIO_ERROR)
        && (o.ok ==> |log| == |old(log)| + 1 && log[..|old(log)|] == old(log))
        && (o.ok ==> r == if done then 0 else if write then BCME_ERROR else BCME_SDIO_ERROR)
        && (o.ok && Bar0(addr) != 0 ==> log[|old(log)|] == Access(write, addr, nbytes, 0))
    {
      SetReaches(Abs(), addr, false, bus, clock);
      var err := SetWindow(addr, false);
      if err {
        return BCME_SDIO_ERROR;
      }
      var at := addr % WINDOW + if wide then ACCESS_2_4B_FLAG else 0;
      var status := Request(write, at, nbytes, 0, done);
      r := if status then 0 else if write then BCME_ERROR else BCME_SDIO_ERROR;
    }
  }
}
