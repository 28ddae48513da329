/** Signal dispositions and the interrupt flag: process-wide state shared by every run. */
module Signals {
  import opened Bytes

  datatype Signal = SIGINT | SIGTERM

  /** The CLI's own handler, or one of the handlers the process had before. */
  datatype Disposition = Ours | Other(id: nat)

  /** Dispositions, the ones saved for restoring, and whether something is saved. */
  datatype Actions = Actions(sigint: Disposition, sigterm: Disposition,
                             savedSigint: Disposition, savedSigterm: Disposition,
                             haveSavedSigint: bool, haveSavedSigterm: bool)
  {
    /** No run is under way. */
    predicate Idle()
    {
      !haveSavedSigint && !haveSavedSigterm
    }
  }

  /** How one run meets the signal machinery: whether it manages signals, and which of its three calls work. */
  datatype SignalSetup = SignalSetup(managed: bool, maskOk: bool, sigintOk: bool, sigtermOk: bool)

  predicate InstallSucceeds(w: SignalSetup)
  {
    w.maskOk && w.sigintOk && w.sigtermOk
  }

  /** The actions after installing the handlers, which may stop half way. */
  function Installed(a: Actions, w: SignalSetup): Actions
  {
    if !w.maskOk || !w.sigintOk then a
    else if !w.sigtermOk then a.(savedSigint := a.sigint, haveSavedSigint := false)
    else a.(sigint := Ours, sigterm := Ours, savedSigint := a.sigint, savedSigterm := a.sigterm,
            haveSavedSigint := true, haveSavedSigterm := true)
  }

  function Restored(a: Actions): Actions
  {
    a.(sigint := if a.haveSavedSigint then a.savedSigint else a.sigint,
       sigterm := if a.haveSavedSigterm then a.savedSigterm else a.sigterm,
       haveSavedSigint := false, haveSavedSigterm := false)
  }

  function AfterRun(a: Actions, w: SignalSetup): Actions
  {
    if w.managed then Restored(Installed(a, w)) else a
  }

  function AfterRuns(a: Actions, runs: seq<SignalSetup>): Actions
    decreases |runs|
  {
    if runs == [] then a else AfterRuns(AfterRun(a, runs[0]), runs[1..])
  }

  /** Any sequence of runs leaves both dispositions as they were, whichever installations fail. */
  lemma {:induction false} RunsRestoreDispositions(a: Actions, runs: seq<SignalSetup>)
    requires a.Idle()
    ensures var b := AfterRuns(a, runs); b.Idle() && b.sigint == a.sigint && b.sigterm == a.sigterm
    decreases |runs|
  {
    if runs != [] {
      RunsRestoreDispositions(AfterRun(a, runs[0]), runs[1..]);
    }
  }

  /** Runs that do not manage signals touch nothing at all. */
  lemma {:induction false} UnmanagedRunsTouchNothing(a: Actions, runs: seq<SignalSetup>)
    requires forall k | 0 <= k < |runs| :: !runs[k].managed
    ensures AfterRuns(a, runs) == a
  {
    if runs != [] {
      UnmanagedRunsTouchNothing(a, runs[1..]);
    }
  }

  /** A signal arrives that finds the CLI's handler in place. */
  predicate Catches(arriving: set<Signal>, sigint: Disposition, sigterm: Disposition)
  {
    (SIGINT in arriving && sigint == Ours) || (SIGTERM in arriving && sigterm == Ours)
  }

  /** A signal is caught exactly if its own disposition is the CLI's handler. */
  lemma CaughtByItsHandler(signal: Signal, sigint: Disposition, sigterm: Disposition)
    ensures Catches({signal}, sigint, sigterm) <==> (match signal case SIGINT => sigint case SIGTERM => sigterm) == Ours
    ensures !Catches({}, sigint, sigterm)
    ensures Catches({SIGINT, SIGTERM}, sigint, sigterm) <==>
              Catches({SIGINT}, sigint, sigterm) || Catches({SIGTERM}, sigint, sigterm)
  {
    assert signal == SIGINT || signal == SIGTERM;
  }

  class Process {
    /** The signals that arrive at each moment; moments pass between the operations of a run. */
    const arrivals: nat -> set<Signal>
    /** How the calls of the k-th installation turn out. */
    const setups: nat -> SignalSetup
    var now: nat
    var installations: nat
    var interrupted: bool
    var sigint: Disposition
    var sigterm: Disposition
    var savedSigint: Disposition
    var savedSigterm: Disposition
    var haveSavedSigint: bool
    var haveSavedSigterm: bool
    /** Some check has found the flag set since the record began. */
    var noticed: bool
    /** When the flag was last reset. */
    ghost var epoch: nat

    constructor (arrivals: nat -> set<Signal>, setups: nat -> SignalSetup, sigint: Disposition, sigterm: Disposition)
      ensures this.arrivals == arrivals && this.setups == setups && now == installations == epoch == 0
      ensures Now() == Actions(sigint, sigterm, sigint, sigterm, false, false)
      ensures !interrupted && !noticed
    {
      this.arrivals, this.setups, now, installations, epoch := arrivals, setups, 0, 0, 0;
      this.sigint, this.sigterm, savedSigint, savedSigterm := sigint, sigterm, sigint, sigterm;
      haveSavedSigint, haveSavedSigterm, interrupted, noticed := false, false, false, false;
    }

    function Now(): Actions
      reads this
    {
      Actions(sigint, sigterm, savedSigint, savedSigterm, haveSavedSigint, haveSavedSigterm)
    }

    /** A signal has been caught since the last reset and before moment `t`. */
    ghost predicate CaughtBefore(t: nat)
      reads this`epoch, this`sigint, this`sigterm
    {
      exists k | epoch <= k < t :: Catches(arrivals(k), sigint, sigterm)
    }

    /** The flag is set exactly if a signal has been caught since the last reset, and it stays set once noticed. */
    ghost predicate Tracked()
      reads this`epoch, this`now, this`interrupted, this`noticed, this`sigint, this`sigterm
    {
      epoch <= now && (noticed ==> interrupted) && (interrupted <==> CaughtBefore(now))
    }

    /** One moment passes, and the signals of that moment arrive. */
    method Deliver()
      modifies this`now, this`interrupted
      ensures now == old(now) + 1 && interrupted == (old(interrupted) || Catches(arrivals(old(now)), sigint, sigterm))
      ensures old(Tracked()) ==> Tracked()
    {
      interrupted := interrupted || Catches(arrivals(now), sigint, sigterm);
      now := now + 1;
    }

    method EnsureSignalHandlers() returns (rc: Status)
      modifies this
      ensures var w := setups(old(installations));
              && rc == (if InstallSucceeds(w) then SALT_OK else SALT_ERR_INTERNAL)
              && Now() == Installed(old(Now()), w)
      ensures installations == old(installations) + 1 && now >= old(now) && noticed == old(noticed)
    {
      hide Process.Tracked, Catches;
      var w := setups(installations);
      installations := installations + 1;
      Deliver();
      if !w.maskOk {
        return SALT_ERR_INTERNAL;
      }
      if !w.sigintOk {
        return SALT_ERR_INTERNAL;
      }
      savedSigint, sigint := sigint, Ours;
      haveSavedSigint := true;
      Deliver();
      if !w.sigtermOk {
        sigint := savedSigint;
        haveSavedSigint := false;
        return SALT_ERR_INTERNAL;
      }
      savedSigterm, sigterm := sigterm, Ours;
      haveSavedSigterm := true;
      Deliver();
      return SALT_OK;
    }

    method RestoreSignalHandlers()
      modifies this
      ensures Now() == Restored(old(Now())) && now == old(now) + 2 && noticed == old(noticed) && epoch == old(epoch)
    {
      hide Process.Tracked, Catches;
      Deliver();
      if haveSavedSigint {
        sigint := savedSigint;
        haveSavedSigint := false;
      }
      Deliver();
      if haveSavedSigterm {
        sigterm := savedSigterm;
        haveSavedSigterm := false;
      }
    }

    method CheckInterrupted() returns (rc: Status)
      modifies this`noticed
      ensures rc == if interrupted then SALT_ERR_SIGNAL else SALT_OK
      ensures noticed == (old(noticed) || interrupted)
      ensures old(Tracked()) ==> Tracked() && (rc == SALT_OK <==> !CaughtBefore(now))
    {
      if interrupted {
        noticed := true;
        return SALT_ERR_SIGNAL;
      }
      return SALT_OK;
    }

    /** Begins a new record of what goes wrong. */
    method BeginRecord()
      modifies this`noticed
      ensures !noticed
    {
      noticed := false;
    }

    method ResetInterrupted()
      modifies this`interrupted, this`epoch
      ensures !interrupted && epoch == now && (!noticed ==> Tracked())
    {
      interrupted := false;
      epoch := now;
    }
  }
}
