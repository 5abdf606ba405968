/** The USART transmitter `Tx<I, State>`: non-blocking `write` and `flush`
    gated on the TXRDY and TXIDLE status flags, the TXRDY interrupt enable,
    the blocking `write_str`, and the DMA `wait`.

    Status flags are hardware inputs. A blocking retry loop (`block!`,
    `bwrite_all`) polls STAT again and again; the model is given the
    sequence of status values the hardware shows after each poll. Once that
    sequence is used up the status stays as it is, so a poll that then
    would block means the source's loop never ends. */
module UsartTx {
  import opened Hal

  /** STAT.TXRDY and STAT.TXIDLE. */
  datatype Stat = Stat(txrdy: bool, txidle: bool)

  /** The register block `I::REGISTERS` of one USART, reduced to what the
      transmitter touches. */
  class UsartRegisters {
    /** STAT.TXRDY and STAT.TXIDLE, set by the hardware. */
    var txrdy: bool
    var txidle: bool
    /** TXDAT */
    var txdat: u16
    /** The TXRDY interrupt enable (set through INTENSET, cleared through
        INTENCLR; the other interrupt enables are not modelled). */
    var txrdyen: bool
    /** Every value written to TXDAT, oldest first. */
    ghost var written: seq<u16>

    /** TXDAT holds the last value written to it. */
    ghost predicate Valid()
      reads this
    {
      written != [] ==> txdat == written[|written| - 1]
    }

    function Status(): Stat
      reads this
    {
      Stat(txrdy, txidle)
    }

    /** The hardware changes the status flags (not a driver operation). */
    method Step(next: Stat)
      modifies this`txrdy, this`txidle
      ensures Status() == next
    {
      txrdy, txidle := next.txrdy, next.txidle;
    }
  }

  /** `Tx<I, State>`: no runtime fields; `regs` stands for the type
      parameter `I`, whose register block it names, and `state` for the
      typestate tag. */
  datatype Tx = Tx(regs: UsartRegisters, state: State)

  /** `Tx::new`, for either state. */
  function New(regs: UsartRegisters, state: State): (tx: Tx)
    ensures tx.regs == regs && tx.state == state
  {
    Tx(regs, state)
  }

  /** The two non-blocking calls a blocking loop retries. */
  datatype Op = WriteOp | FlushOp

  /** The flag each call waits for. */
  predicate FlagSet(op: Op, st: Stat)
  {
    match op
    case WriteOp => st.txrdy
    case FlushOp => st.txidle
  }

  /** What one non-blocking `write` or `flush` returns for the status it
      reads: `WouldBlock` while its flag is clear. The error type is `Void`,
      so it never returns `Other`. */
  function Attempt(op: Op, st: Stat): (r: Nb<()>)
    ensures r != Other
    ensures r == Ok(()) <==> FlagSet(op, st)
    ensures r == WouldBlock <==> !FlagSet(op, st)
  {
    match op
    case WriteOp => if !st.txrdy then WouldBlock else Ok(())
    case FlushOp => if !st.txidle then WouldBlock else Ok(())
  }

  /** `enable_txrdy`: sets the TXRDY interrupt enable and nothing else. */
  method EnableTxrdy(tx: Tx)
    requires tx.state == Enabled
    modifies tx.regs`txrdyen
    ensures tx.regs.txrdyen
  {
    tx.regs.txrdyen := true;
  }

  /** `disable_txrdy`: clears the TXRDY interrupt enable and nothing else. */
  method DisableTxrdy(tx: Tx)
    requires tx.state == Enabled
    modifies tx.regs`txrdyen
    ensures !tx.regs.txrdyen
  {
    tx.regs.txrdyen := false;
  }

  /** `Write::write`: `WouldBlock` with TXDAT untouched while TXRDY is clear;
      otherwise writes the word zero-extended into TXDAT and succeeds. */
  method Write(tx: Tx, word: u8) returns (r: Nb<()>)
    requires tx.state == Enabled && tx.regs.Valid()
    modifies tx.regs`txdat, tx.regs`written
    ensures tx.regs.Valid()
    ensures r == Attempt(WriteOp, tx.regs.Status())
    ensures tx.regs.txrdy ==>
      r == Ok(()) && tx.regs.txdat == ZeroExtend(word)
      && tx.regs.written == old(tx.regs.written) + [ZeroExtend(word)]
    ensures !tx.regs.txrdy ==>
      r == WouldBlock && tx.regs.txdat == old(tx.regs.txdat)
      && tx.regs.written == old(tx.regs.written)
  {
    if !tx.regs.txrdy {
      return WouldBlock;
    }
    tx.regs.txdat := ZeroExtend(word);
    tx.regs.written := tx.regs.written + [ZeroExtend(word)];
    r := Ok(());
  }

  /** `Write::flush`: succeeds exactly when TXIDLE is set, `WouldBlock`
      otherwise; reads STAT and writes nothing. */
  method Flush(tx: Tx) returns (r: Nb<()>)
    requires tx.state == Enabled
    ensures tx.regs.txidle ==> r == Ok(())
    ensures !tx.regs.txidle ==> r == WouldBlock
  {
    if !tx.regs.txidle {
      return WouldBlock;
    }
    r := Ok(());
  }

  /** `dma::Dest::wait`: the same result as `flush`, and likewise writes
      nothing. */
  method Wait(tx: Tx) returns (r: Nb<()>)
    requires tx.state == Enabled
    ensures r == Attempt(FlushOp, tx.regs.Status())
  {
    r := Flush(tx);
  }

  // ---------------------------------------------------------------------
  // The blocking layer, specified over the hardware's status script.

  /** The status now, and the statuses the hardware shows after each of the
      next polls. */
  datatype Env = Env(now: Stat, later: seq<Stat>)

  /** The environment after one more poll; it stays put once `later` is used up. */
  function Tick(e: Env): (t: Env)
    ensures e.later == [] ==> t == e
    ensures e.later != [] ==> t.now == e.later[0] && t.later == e.later[1..]
  {
    if e.later == [] then e else Env(e.later[0], e.later[1..])
  }

  /** How a blocking retry loop ends: its call succeeded, its call returned
      a real error, or the status can no longer change and the call still
      would block, so the loop spins forever. */
  datatype BlockEnd = Ready | Failed | Forever

  datatype Blocked = Blocked(end: BlockEnd, env: Env)

  /** `block!(call)`: retry the non-blocking call until it no longer
      returns `WouldBlock`. It only consumes statuses, and it spins forever
      only once the status can no longer change and its flag is clear. */
  function Block(op: Op, e: Env): (b: Blocked)
    ensures |b.env.later| <= |e.later|
    ensures b.end == Forever ==> b.env.later == [] && !FlagSet(op, b.env.now)
    decreases |e.later|
  {
    match Attempt(op, e.now)
    case Ok(_) => Blocked(Ready, Tick(e))
    case Other => Blocked(Failed, Tick(e))
    case WouldBlock =>
      if e.later == [] then Blocked(Forever, e) else Block(op, Tick(e))
  }

  /** The flag a loop waits for is clear in every status the hardware will
      ever show. */
  predicate NeverReady(op: Op, e: Env)
  {
    !FlagSet(op, e.now) && forall j :: 0 <= j < |e.later| ==> !FlagSet(op, e.later[j])
  }

  /** A blocking loop never ends in an error, since the calls' error type
      is uninhabited. */
  lemma {:induction false} BlockNeverFails(op: Op, e: Env)
    ensures Block(op, e).end != Failed
    decreases |e.later|
  {
    if !FlagSet(op, e.now) && e.later != [] {
      BlockNeverFails(op, Tick(e));
    }
  }

  /** A blocking loop spins forever exactly when its flag never comes up;
      otherwise it returns once its call has succeeded. */
  lemma {:induction false} BlockForeverIffNeverReady(op: Op, e: Env)
    ensures Block(op, e).end == Forever <==> NeverReady(op, e)
    ensures Block(op, e).end != Forever ==> Block(op, e).end == Ready
    decreases |e.later|
  {
    BlockNeverFails(op, e);
    if !FlagSet(op, e.now) && e.later != [] {
      var t := Tick(e);
      BlockForeverIffNeverReady(op, t);
      assert NeverReady(op, t) ==> NeverReady(op, e) by {
        if NeverReady(op, t) {
          forall j | 0 <= j < |e.later| ensures !FlagSet(op, e.later[j]) {
            if j > 0 {
              assert e.later[j] == t.later[j - 1];
            }
          }
        }
      }
      assert NeverReady(op, e) ==> NeverReady(op, t) by {
        if NeverReady(op, e) {
          forall j | 0 <= j < |t.later| ensures !FlagSet(op, t.later[j]) {
            assert t.later[j] == e.later[j + 1];
          }
        }
      }
    }
  }

  /** Where a sequence of blocking calls stopped, what it wrote to TXDAT,
      and the environment it left. */
  datatype Progress = Progress(end: BlockEnd, sent: seq<u16>, env: Env)

  /** `bwrite_all(bytes)`: `block!(write(b))?` for every byte in order,
      stopping at the first loop that does not succeed. It spins forever
      only once the status can no longer change and TXRDY is clear. */
  function SendAll(s: seq<u8>, e: Env): (p: Progress)
    ensures |p.env.later| <= |e.later|
    ensures p.end == Forever ==> p.env.later == [] && !FlagSet(WriteOp, p.env.now)
    decreases |s|
  {
    if s == [] then Progress(Ready, [], e)
    else
      var b := Block(WriteOp, e);
      if b.end != Ready then Progress(b.end, [], b.env)
      else
        var rest := SendAll(s[1..], b.env);
        Progress(rest.end, [ZeroExtend(s[0])] + rest.sent, rest.env)
  }

  /** `bwrite_all` writes a prefix of the string's bytes, in order, and all
      of them exactly when it succeeds. */
  lemma {:induction false} SendAllSendsPrefix(s: seq<u8>, e: Env)
    ensures var p := SendAll(s, e);
      |p.sent| <= |s| && p.sent == ZeroExtendAll(s[..|p.sent|])
      && (p.end == Ready <==> |p.sent| == |s|)
    decreases |s|
  {
    if s != [] {
      var b := Block(WriteOp, e);
      if b.end == Ready {
        SendAllSendsPrefix(s[1..], b.env);
        var rest := SendAll(s[1..], b.env);
        var n := |rest.sent|;
        assert s[1..][..n] == s[1..n + 1];
        assert s[..n + 1][1..] == s[1..n + 1];
      }
    }
  }

  /** `bwrite_all` never ends in an error. */
  lemma {:induction false} SendAllNeverFails(s: seq<u8>, e: Env)
    ensures SendAll(s, e).end != Failed
    decreases |s|
  {
    if s != [] {
      var b := Block(WriteOp, e);
      BlockNeverFails(WriteOp, e);
      if b.end == Ready {
        SendAllNeverFails(s[1..], b.env);
      }
    }
  }

  /** What `write_str` returns: `Ok` or `Err(fmt::Error)`, or nothing
      because one of its loops spins forever. */
  datatype FmtResult = FmtOk | FmtError
  datatype Outcome = Returned(result: FmtResult) | Hangs

  function OutcomeOf(end: BlockEnd): Outcome
  {
    match end
    case Ready => Returned(FmtOk)
    case Failed => Returned(FmtError)
    case Forever => Hangs
  }

  /** `write_str(s)`: `bwrite_all(s.as_bytes())`, then `block!(flush())`,
      each error mapped to `fmt::Error`. It hangs only once the status can
      no longer change, with TXRDY clear while bytes remain and TXIDLE
      clear afterwards. */
  function WriteStrRun(s: seq<u8>, e: Env): (r: Progress)
    ensures |r.env.later| <= |e.later|
    ensures r.end == Forever ==> r.env.later == []
    ensures r.end == Forever && |r.sent| < |s| ==> !FlagSet(WriteOp, r.env.now)
    ensures r.end == Forever && |r.sent| == |s| ==> !FlagSet(FlushOp, r.env.now)
  {
    SendAllSendsPrefix(s, e);
    var w := SendAll(s, e);
    if w.end != Ready then w
    else
      var f := Block(FlushOp, w.env);
      Progress(f.end, w.sent, f.env)
  }

  /** `write_str` never returns `fmt::Error`. When it returns, it returns
      `Ok`, has written every byte of the string, in order, and its wait
      for TXIDLE has succeeded. */
  lemma WriteStrReturnsOk(s: seq<u8>, e: Env)
    ensures var run := WriteStrRun(s, e);
      OutcomeOf(run.end) != Returned(FmtError)
      && (OutcomeOf(run.end) == Returned(FmtOk) ==>
            run.sent == ZeroExtendAll(s)
            && Block(FlushOp, SendAll(s, e).env).end == Ready)
  {
    SendAllNeverFails(s, e);
    SendAllSendsPrefix(s, e);
    var w := SendAll(s, e);
    if w.end == Ready {
      BlockNeverFails(FlushOp, w.env);
      assert s[..|s|] == s;
    }
  }

  /** Every status the environment will show has the flag of `op` set. */
  predicate AlwaysSet(op: Op, e: Env)
  {
    FlagSet(op, e.now) && forall j :: 0 <= j < |e.later| ==> FlagSet(op, e.later[j])
  }

  lemma TickKeepsAlwaysSet(op: Op, e: Env)
    requires AlwaysSet(op, e)
    ensures AlwaysSet(op, Tick(e))
  {
    if e.later != [] {
      var t := Tick(e);
      forall j | 0 <= j < |t.later| ensures FlagSet(op, t.later[j]) {
        assert t.later[j] == e.later[j + 1];
      }
    }
  }

  /** When TXRDY is set in every status the hardware shows, `bwrite_all`
      writes the whole string; a flag set in every status before is still
      set in every status after. */
  lemma {:induction false} SendAllOnReadyHardware(s: seq<u8>, e: Env, op: Op)
    requires AlwaysSet(WriteOp, e)
    ensures SendAll(s, e).end == Ready && SendAll(s, e).sent == ZeroExtendAll(s)
    ensures AlwaysSet(op, e) ==> AlwaysSet(op, SendAll(s, e).env)
    decreases |s|
  {
    if s != [] {
      TickKeepsAlwaysSet(WriteOp, e);
      if AlwaysSet(op, e) {
        TickKeepsAlwaysSet(op, e);
      }
      SendAllOnReadyHardware(s[1..], Tick(e), op);
    }
  }

  /** When TXRDY and TXIDLE are set in every status the hardware shows,
      `write_str` returns `Ok` after writing the whole string. */
  lemma WriteStrOnReadyHardware(s: seq<u8>, e: Env)
    requires AlwaysSet(WriteOp, e) && AlwaysSet(FlushOp, e)
    ensures OutcomeOf(WriteStrRun(s, e).end) == Returned(FmtOk)
    ensures WriteStrRun(s, e).sent == ZeroExtendAll(s)
  {
    SendAllOnReadyHardware(s, e, FlushOp);
  }

  // ---------------------------------------------------------------------
  // The blocking layer as the driver runs it.

  /** One `block!(call)` loop on the live registers, the status changing
      after each poll as `hw[k0..]` says; returns how it ended and how much
      of `hw` it used. */
  method BlockOn(tx: Tx, op: Op, word: u8, hw: seq<Stat>, k0: nat) returns (end: BlockEnd, k: nat)
    requires tx.state == Enabled && tx.regs.Valid() && k0 <= |hw|
    modifies tx.regs`txdat, tx.regs`written, tx.regs`txrdy, tx.regs`txidle
    ensures tx.regs.Valid() && k0 <= k <= |hw|
    ensures var b := Block(op, Env(old(tx.regs.Status()), hw[k0..]));
      end == b.end && b.env == Env(tx.regs.Status(), hw[k..])
    ensures tx.regs.written == old(tx.regs.written)
      + (if op == WriteOp && end == Ready then [ZeroExtend(word)] else [])
    ensures tx.regs.txdat
         == (if op == WriteOp && end == Ready then ZeroExtend(word) else old(tx.regs.txdat))
  {
    k := k0;
    while true
      invariant tx.regs.Valid() && k0 <= k <= |hw|
      invariant tx.regs.txdat == old(tx.regs.txdat)
      invariant Block(op, Env(old(tx.regs.Status()), hw[k0..]))
             == Block(op, Env(tx.regs.Status(), hw[k..]))
      invariant tx.regs.written == old(tx.regs.written)
      decreases |hw| - k
    {
      ghost var e := Env(tx.regs.Status(), hw[k..]);
      var r;
      if op == WriteOp {
        r := Write(tx, word);
      } else {
        r := Flush(tx);
      }
      assert r == Attempt(op, e.now);
      var frozen := k == |hw|;
      if !frozen {
        tx.regs.Step(hw[k]);
        k := k + 1;
      }
      assert Env(tx.regs.Status(), hw[k..]) == Tick(e);
      if r != WouldBlock {
        end := if r.Ok? then Ready else Failed;
        return;
      }
      if frozen {
        end := Forever;
        return;
      }
    }
  }

  /** What TXDAT holds once the words `w` have been written over `d`: the
      last of them, or `d` when there are none. */
  function TxdatAfter(d: u16, w: seq<u16>): u16
  {
    if w == [] then d else w[|w| - 1]
  }

  /** A progress record with `w` written before it. */
  function Prefixed(w: seq<u16>, p: Progress): Progress
  {
    Progress(p.end, w + p.sent, p.env)
  }

  /** One step of `bwrite_all` whose write loop succeeded. */
  lemma SendAllCons(t: seq<u8>, e: Env)
    requires t != [] && Block(WriteOp, e).end == Ready
    ensures SendAll(t, e)
         == Prefixed([ZeroExtend(t[0])], SendAll(t[1..], Block(WriteOp, e).env))
  {
  }

  lemma PrefixedPrefixed(a: seq<u16>, b: seq<u16>, p: Progress)
    ensures Prefixed(a, Prefixed(b, p)) == Prefixed(a + b, p)
  {
    assert a + (b + p.sent) == (a + b) + p.sent;
  }

  /** `bwrite_all` over a string whose byte `i` has just been written: the
      rest of the run continues with byte `i + 1`. */
  lemma SendAllAdvance(s: seq<u8>, i: nat, sent: seq<u16>, e0: Env, e: Env)
    requires i < |s|
    requires SendAll(s, e0) == Prefixed(sent, SendAll(s[i..], e))
    requires Block(WriteOp, e).end == Ready
    ensures SendAll(s, e0)
         == Prefixed(sent + [ZeroExtend(s[i])], SendAll(s[i + 1..], Block(WriteOp, e).env))
  {
    var t := s[i..];
    assert t[0] == s[i] && t[1..] == s[i + 1..];
    SendAllCons(t, e);
    PrefixedPrefixed(sent, [ZeroExtend(s[i])], SendAll(s[i + 1..], Block(WriteOp, e).env));
  }

  /** `bwrite_all` over a string whose byte `i` could not be written: the
      run ends there. */
  lemma SendAllStop(s: seq<u8>, i: nat, sent: seq<u16>, e0: Env, e: Env)
    requires i < |s|
    requires SendAll(s, e0) == Prefixed(sent, SendAll(s[i..], e))
    requires Block(WriteOp, e).end != Ready
    ensures SendAll(s, e0) == Progress(Block(WriteOp, e).end, sent, Block(WriteOp, e).env)
  {
    assert s[i..] != [];
  }

  /** `bwrite_all(s)`, run on the live registers against the status script
      from `hw[k0]` on: how it ends, what it writes to TXDAT and where it
      leaves the status are those of SendAll; TXDAT ends with the last word
      sent, and is untouched when none was. */
  method WriteAll(tx: Tx, s: seq<u8>, hw: seq<Stat>, k0: nat) returns (end: BlockEnd, k: nat)
    requires tx.state == Enabled && tx.regs.Valid() && k0 <= |hw|
    modifies tx.regs`txdat, tx.regs`written, tx.regs`txrdy, tx.regs`txidle
    ensures tx.regs.Valid() && k0 <= k <= |hw|
    ensures var p := SendAll(s, Env(old(tx.regs.Status()), hw[k0..]));
      end == p.end && tx.regs.written == old(tx.regs.written) + p.sent
      && p.env == Env(tx.regs.Status(), hw[k..])
      && tx.regs.txdat == TxdatAfter(old(tx.regs.txdat), p.sent)
  {
    ghost var e0 := Env(tx.regs.Status(), hw[k0..]);
    ghost var w0 := tx.regs.written;
    ghost var sent: seq<u16> := [];
    k := k0;
    var i := 0;
    while i < |s|
      invariant 0 <= i <= |s| && k0 <= k <= |hw| && tx.regs.Valid()
      invariant tx.regs.written == w0 + sent
      invariant tx.regs.txdat == TxdatAfter(old(tx.regs.txdat), sent)
      invariant SendAll(s, e0) == Prefixed(sent, SendAll(s[i..], Env(tx.regs.Status(), hw[k..])))
    {
      ghost var e := Env(tx.regs.Status(), hw[k..]);
      end, k := BlockOn(tx, WriteOp, s[i], hw, k);
      if end != Ready {
        SendAllStop(s, i, sent, e0, e);
        return;
      }
      SendAllAdvance(s, i, sent, e0, e);
      sent := sent + [ZeroExtend(s[i])];
      i := i + 1;
    }
    assert s[i..] == [];
    end := Ready;
  }

  /** `fmt::Write::write_str`, run on the live registers against the status
      script `hw`: its outcome, what it writes to TXDAT and where it leaves
      the status are those of WriteStrRun; TXDAT ends with the last word
      sent, and is untouched when none was. The interrupt enable is
      untouched. */
  method WriteStr(tx: Tx, s: seq<u8>, hw: seq<Stat>) returns (r: Outcome)
    requires tx.state == Enabled && tx.regs.Valid()
    modifies tx.regs`txdat, tx.regs`written, tx.regs`txrdy, tx.regs`txidle
    ensures tx.regs.Valid()
    ensures var run := WriteStrRun(s, Env(old(tx.regs.Status()), hw));
      r == OutcomeOf(run.end)
      && tx.regs.written == old(tx.regs.written) + run.sent
      && tx.regs.Status() == run.env.now
      && tx.regs.txdat == TxdatAfter(old(tx.regs.txdat), run.sent)
  {
    assert hw[0..] == hw;
    var end, k := WriteAll(tx, s, hw, 0);
    if end != Ready {
      return OutcomeOf(end);
    }
    end, k := BlockOn(tx, FlushOp, 0, hw, k);
    r := OutcomeOf(end);
  }
}
