/** The parent's polled NAND machines (sw/parent/src/write.cc, erase.cc, read.cc): every call looks at
    the status register and sends at most one command. */
module SpiNand {

  type Command = seq<bv8>

  // INSTRUCTION codes, also used as machine states.
  const DEVICE_RESET: bv8 := 0xFF
  const WRITE_STATUS_REGISTER_L: bv8 := 0x1F
  const WRITE_ENABLE: bv8 := 0x06
  const WRITE_DISABLE: bv8 := 0x04
  const BLOCK_ERASE: bv8 := 0xD8
  const RANDOM_PG_DATA_LOAD: bv8 := 0x84
  const PG_EXECUTE: bv8 := 0x10
  const PG_DATA_READ: bv8 := 0x13
  const READ: bv8 := 0x03
  const STATUS_REGISTER_1_ADDR: bv8 := 0xA0
  const STATUS_REGISTER_2_ADDR: bv8 := 0xB0
  const STATUS_REGISTER_2_ECC_E: bv8 := 0x10
  const STATUS_REGISTER_2_BUF: bv8 := 0x08

  const NOT_DONE: int := 0
  const DONE: int := 1
  const EXCEPTION: int := -1

  // sizeof(cmd) - 3 in write_block_page
  const LOAD_LIMIT: int := 2109

  /** The BUSY and WEL bits of one poll. */
  datatype Poll = Poll(busy: bool, wel: bool)

  /** New state, the commands sent by the call (none or one) and the return value. */
  datatype Outcome = Outcome(status: bv8, sent: seq<Command>, ret: int)

  function High(block: bv16): bv8 { ((block >> 2) & 0x00FF) as bv8 }

  function Low(block: bv16, page: bv16): bv8
  {
    (((block << 6) & 0x00C0) as bv8) | ((page & 0x003F) as bv8)
  }

  /** The two address bytes of a command are the page number block * 64 + page. */
  lemma AddressBytes(block: bv16, page: bv16)
    requires block < 1024 && page < 64
    ensures ((High(block) as bv16) << 8) | (Low(block, page) as bv16) == (block << 6) | page
  {
  }

  // ----- one call, branch by branch

  function Idle(status: bv8): Outcome { Outcome(status, [], NOT_DONE) }

  /** write_block_page */
  function WriteStep(status: bv8, poll: Poll, block: bv16, page: bv16, data: seq<bv8>): Outcome
  {
    if poll.busy then Idle(status)
    else if status == DEVICE_RESET then
      Outcome(WRITE_ENABLE, [[WRITE_STATUS_REGISTER_L, STATUS_REGISTER_1_ADDR, 0]], NOT_DONE)
    else if status == WRITE_ENABLE then Outcome(WRITE_DISABLE, [[WRITE_ENABLE]], NOT_DONE)
    else if status == WRITE_DISABLE then
      if !poll.wel then Idle(status)
      else if |data| > LOAD_LIMIT then Outcome(status, [], EXCEPTION)
      else Outcome(RANDOM_PG_DATA_LOAD, [[RANDOM_PG_DATA_LOAD, 0, 0] + data], NOT_DONE)
    else if status == RANDOM_PG_DATA_LOAD then Outcome(PG_EXECUTE, [[WRITE_ENABLE]], NOT_DONE)
    else if status == PG_EXECUTE then
      if !poll.wel then Idle(status)
      else Outcome(DEVICE_RESET, [[PG_EXECUTE, 0, High(block), Low(block, page)]], DONE)
    else Idle(status)
  }

  /** erase_block */
  function EraseStep(status: bv8, poll: Poll, block: bv16): Outcome
  {
    if poll.busy then Idle(status)
    else if status == DEVICE_RESET then
      Outcome(WRITE_ENABLE, [[WRITE_STATUS_REGISTER_L, STATUS_REGISTER_1_ADDR, 0]], NOT_DONE)
    else if status == WRITE_ENABLE then Outcome(BLOCK_ERASE, [[WRITE_ENABLE]], NOT_DONE)
    else if status == BLOCK_ERASE then
      if !poll.wel then Idle(status)
      else Outcome(DEVICE_RESET, [[BLOCK_ERASE, 0, High(block), Low(block, 0)]], DONE)
    else Idle(status)
  }

  /** read_by_block_page; `prot` is the register value the first step reads back. */
  function ReadStep(status: bv8, poll: Poll, block: bv16, page: bv16, prot: bv8): Outcome
  {
    if poll.busy then Idle(status)
    else if status == DEVICE_RESET then
      Outcome(PG_DATA_READ,
              [[WRITE_STATUS_REGISTER_L, STATUS_REGISTER_2_ADDR,
                (prot & !STATUS_REGISTER_2_ECC_E) | STATUS_REGISTER_2_BUF]], NOT_DONE)
    else if status == PG_DATA_READ then
      Outcome(READ, [[PG_DATA_READ, 0, High(block), Low(block, page)]], NOT_DONE)
    else if status == READ then Outcome(DEVICE_RESET, [[READ, 0, 0, 0]], DONE)
    else Idle(status)
  }

  // ----- the protocol a machine has to follow

  /** A stage: the state it waits in, the command it sends and whether it waits for WEL. */
  datatype Stage = Stage(status: bv8, command: Command, needsWel: bool)

  function WriteProtocol(block: bv16, page: bv16, data: seq<bv8>): seq<Stage>
  {
    [Stage(DEVICE_RESET, [WRITE_STATUS_REGISTER_L, STATUS_REGISTER_1_ADDR, 0], false),
     Stage(WRITE_ENABLE, [WRITE_ENABLE], false),
     Stage(WRITE_DISABLE, [RANDOM_PG_DATA_LOAD, 0, 0] + data, true),
     Stage(RANDOM_PG_DATA_LOAD, [WRITE_ENABLE], false),
     Stage(PG_EXECUTE, [PG_EXECUTE, 0, High(block), Low(block, page)], true)]
  }

  function EraseProtocol(block: bv16): seq<Stage>
  {
    [Stage(DEVICE_RESET, [WRITE_STATUS_REGISTER_L, STATUS_REGISTER_1_ADDR, 0], false),
     Stage(WRITE_ENABLE, [WRITE_ENABLE], false),
     Stage(BLOCK_ERASE, [BLOCK_ERASE, 0, High(block), Low(block, 0)], true)]
  }

  function ReadProtocol(block: bv16, page: bv16, prot: bv8): seq<Stage>
  {
    [Stage(DEVICE_RESET,
           [WRITE_STATUS_REGISTER_L, STATUS_REGISTER_2_ADDR, (prot & !STATUS_REGISTER_2_ECC_E) | STATUS_REGISTER_2_BUF],
           false),
     Stage(PG_DATA_READ, [PG_DATA_READ, 0, High(block), Low(block, page)], false),
     Stage(READ, [READ, 0, 0, 0], false)]
  }

  /** Does a poll let stage `i` go on? */
  predicate Productive(stages: seq<Stage>, i: nat, poll: Poll)
    requires i < |stages|
  {
    !poll.busy && (stages[i].needsWel ==> poll.wel)
  }

  /** The protocol step: send the stage's command and move on, or wait. */
  function ProtocolStep(stages: seq<Stage>, i: nat, poll: Poll): Outcome
    requires i < |stages|
  {
    if !Productive(stages, i, poll) then Idle(stages[i].status)
    else if i + 1 < |stages| then Outcome(stages[i + 1].status, [stages[i].command], NOT_DONE)
    else Outcome(stages[0].status, [stages[i].command], DONE)
  }

  /** Each machine is its protocol. */
  lemma WriteFollowsProtocol(i: nat, poll: Poll, block: bv16, page: bv16, data: seq<bv8>)
    requires i < 5 && |data| <= LOAD_LIMIT
    ensures var stages := WriteProtocol(block, page, data);
            WriteStep(stages[i].status, poll, block, page, data) == ProtocolStep(stages, i, poll)
  {
  }

  lemma EraseFollowsProtocol(i: nat, poll: Poll, block: bv16)
    requires i < 3
    ensures var stages := EraseProtocol(block);
            EraseStep(stages[i].status, poll, block) == ProtocolStep(stages, i, poll)
  {
  }

  lemma ReadFollowsProtocol(i: nat, poll: Poll, block: bv16, page: bv16, prot: bv8)
    requires i < 3
    ensures var stages := ReadProtocol(block, page, prot);
            ReadStep(stages[i].status, poll, block, page, prot) == ProtocolStep(stages, i, poll)
  {
  }

  // ----- whole polling sessions

  /** Everything a session has done: state, commands in order, completed operations. */
  datatype Session = Session(status: bv8, bus: seq<Command>, done: nat)

  function Extend(s: Session, o: Outcome): Session
  {
    Session(o.status, s.bus + o.sent, s.done + if o.ret == DONE then 1 else 0)
  }

  datatype Job =
    | WriteJob(block: bv16, page: bv16, data: seq<bv8>)
    | EraseJob(block: bv16)
    | ReadJob(block: bv16, page: bv16, prot: bv8)

  function JobStep(job: Job, status: bv8, poll: Poll): Outcome
  {
    match job
    case WriteJob(block, page, data) => WriteStep(status, poll, block, page, data)
    case EraseJob(block) => EraseStep(status, poll, block)
    case ReadJob(block, page, prot) => ReadStep(status, poll, block, page, prot)
  }

  function Protocol(job: Job): (stages: seq<Stage>)
    ensures |stages| >= 3 && stages[0].status == DEVICE_RESET
  {
    match job
    case WriteJob(block, page, data) => WriteProtocol(block, page, data)
    case EraseJob(block) => EraseProtocol(block)
    case ReadJob(block, page, prot) => ReadProtocol(block, page, prot)
  }

  predicate Loadable(job: Job)
  {
    job.WriteJob? ==> |job.data| <= LOAD_LIMIT
  }

  lemma JobFollowsProtocol(job: Job, i: nat, poll: Poll)
    requires Loadable(job) && i < |Protocol(job)|
    ensures JobStep(job, Protocol(job)[i].status, poll) == ProtocolStep(Protocol(job), i, poll)
  {
    match job
    case WriteJob(block, page, data) => WriteFollowsProtocol(i, poll, block, page, data);
    case EraseJob(block) => EraseFollowsProtocol(i, poll, block);
    case ReadJob(block, page, prot) => ReadFollowsProtocol(i, poll, block, page, prot);
  }

  /** The machine called once per poll. */
  function Run(job: Job, s: Session, polls: seq<Poll>): Session
  {
    if polls == [] then s
    else
      var before := Run(job, s, polls[..|polls| - 1]);
      Extend(before, JobStep(job, before.status, polls[|polls| - 1]))
  }

  function Commands(stages: seq<Stage>): (cs: seq<Command>)
    ensures |cs| == |stages| && forall i | 0 <= i < |cs| :: cs[i] == stages[i].command
  {
    seq(|stages|, i requires 0 <= i < |stages| => stages[i].command)
  }

  /** The full command list `n` times over. */
  function Rounds(cs: seq<Command>, n: nat): seq<Command>
  {
    if n == 0 then [] else Rounds(cs, n - 1) + cs
  }

  /** The bus has seen `done` full rounds and then the commands of the stages passed since. */
  predicate OnProtocol(stages: seq<Stage>, start: Session, s: Session, phase: nat)
  {
    && phase < |stages|
    && s.status == stages[phase].status
    && s.done >= start.done
    && s.bus == start.bus + (Rounds(Commands(stages), s.done - start.done) + Commands(stages)[..phase])
  }

  /** The stage a poll leads to. */
  function NextPhase(stages: seq<Stage>, phase: nat, poll: Poll): nat
    requires phase < |stages|
  {
    if !Productive(stages, phase, poll) then phase
    else if phase + 1 < |stages| then phase + 1 else 0
  }

  /** A waiting poll changes nothing. */
  lemma WaitingPoll(stages: seq<Stage>, s: Session, phase: nat, poll: Poll)
    requires phase < |stages| && s.status == stages[phase].status && !Productive(stages, phase, poll)
    ensures Extend(s, ProtocolStep(stages, phase, poll)) == s
  {
    assert s.bus + [] == s.bus;
  }

  /** The bus after one more command of a round ... */
  lemma CommandSent(cs: seq<Command>, start: seq<Command>, rounds: nat, phase: nat)
    requires phase < |cs|
    ensures start + (Rounds(cs, rounds) + cs[..phase]) + [cs[phase]] == start + (Rounds(cs, rounds) + cs[..phase + 1])
  {
    assert cs[..phase] + [cs[phase]] == cs[..phase + 1];
  }

  /** ... and after the last one. */
  lemma RoundDone(cs: seq<Command>, rounds: nat)
    ensures Rounds(cs, rounds) + cs[..|cs|] == Rounds(cs, rounds + 1) + cs[..0]
  {
    assert cs[..|cs|] == cs;
  }

  lemma ProductivePoll(stages: seq<Stage>, start: Session, s: Session, phase: nat, poll: Poll)
    requires OnProtocol(stages, start, s, phase) && Productive(stages, phase, poll)
    ensures OnProtocol(stages, start, Extend(s, ProtocolStep(stages, phase, poll)), NextPhase(stages, phase, poll))
  {
    var cs, rounds := Commands(stages), s.done - start.done;
    CommandSent(cs, start.bus, rounds, phase);
    if phase + 1 == |stages| {
      RoundDone(cs, rounds);
    }
  }

  /** A poll either changes nothing or passes exactly one stage. */
  lemma StepOnProtocol(job: Job, start: Session, s: Session, phase: nat, poll: Poll)
    requires Loadable(job) && OnProtocol(Protocol(job), start, s, phase)
    ensures OnProtocol(Protocol(job), start, Extend(s, JobStep(job, s.status, poll)),
                       NextPhase(Protocol(job), phase, poll))
    ensures !Productive(Protocol(job), phase, poll) ==> Extend(s, JobStep(job, s.status, poll)) == s
    ensures Extend(s, JobStep(job, s.status, poll)).done
            == s.done + if Productive(Protocol(job), phase, poll) && phase + 1 == |Protocol(job)| then 1 else 0
  {
    JobFollowsProtocol(job, phase, poll);
    if Productive(Protocol(job), phase, poll) {
      ProductivePoll(Protocol(job), start, s, phase, poll);
    } else {
      WaitingPoll(Protocol(job), s, phase, poll);
    }
  }

  /** The stage a session is in after some polls, started at stage 0. */
  function PhaseAfter(stages: seq<Stage>, polls: seq<Poll>): (phase: nat)
    requires |stages| > 0
    ensures phase < |stages|
  {
    if polls == [] then 0
    else NextPhase(stages, PhaseAfter(stages, polls[..|polls| - 1]), polls[|polls| - 1])
  }

  /** Number of polls that let their stage go on. */
  function ProductiveCount(stages: seq<Stage>, polls: seq<Poll>): nat
    requires |stages| > 0
  {
    if polls == [] then 0
    else
      ProductiveCount(stages, polls[..|polls| - 1])
      + if Productive(stages, PhaseAfter(stages, polls[..|polls| - 1]), polls[|polls| - 1]) then 1 else 0
  }

  lemma NothingSent(stages: seq<Stage>, start: Session)
    requires |stages| > 0 && start.status == stages[0].status
    ensures OnProtocol(stages, start, start, 0)
  {
    assert Rounds(Commands(stages), 0) + Commands(stages)[..0] == [];
    assert start.bus + [] == start.bus;
  }

  /** Whole rounds and a prefix: the bus and the state after any polls. */
  lemma {:induction false} TraceOnProtocol(job: Job, start: Session, polls: seq<Poll>)
    requires Loadable(job) && start.status == DEVICE_RESET
    ensures OnProtocol(Protocol(job), start, Run(job, start, polls), PhaseAfter(Protocol(job), polls))
  {
    if polls == [] {
      NothingSent(Protocol(job), start);
    } else {
      var before := polls[..|polls| - 1];
      TraceOnProtocol(job, start, before);
      StepOnProtocol(job, start, Run(job, start, before), PhaseAfter(Protocol(job), before), polls[|polls| - 1]);
    }
  }

  /** One poll's part of the count. */
  lemma CountStep(n: nat, rounds: nat, rounds': nat, phase: nat, phase': nat, productive: bool)
    requires phase < n && phase' == if !productive then phase else if phase + 1 < n then phase + 1 else 0
    requires rounds' == rounds + if productive && phase + 1 == n then 1 else 0
    ensures Passed(n, rounds', phase') == Passed(n, rounds, phase) + if productive then 1 else 0
  {
    OneRoundMore(n, rounds);
  }

  /** Stages passed in whole rounds of `n` and a prefix. */
  function Passed(n: nat, rounds: nat, phase: nat): nat { n * rounds + phase }

  /** The productive polls are the stages passed. */
  lemma {:induction false} TraceCounts(job: Job, start: Session, polls: seq<Poll>)
    requires Loadable(job) && start.status == DEVICE_RESET
    ensures Run(job, start, polls).done >= start.done
    ensures ProductiveCount(Protocol(job), polls)
            == Passed(|Protocol(job)|, Run(job, start, polls).done - start.done, PhaseAfter(Protocol(job), polls))
  {
    if polls != [] {
      var before, poll, stages := polls[..|polls| - 1], polls[|polls| - 1], Protocol(job);
      var s, phase := Run(job, start, before), PhaseAfter(stages, before);
      TraceCounts(job, start, before);
      TraceOnProtocol(job, start, before);
      StepOnProtocol(job, start, s, phase, poll);
      CountStep(|stages|, s.done - start.done, Run(job, start, polls).done - start.done, phase,
                PhaseAfter(stages, polls), Productive(stages, phase, poll));
    }
  }

  /** Command-trace refinement: for every BUSY/WEL response sequence the bus sees whole rounds of the
      protocol and then a prefix of it, DONE is returned exactly once per completed round, each
      productive poll passes exactly one stage, and after a round the machine is back in
      DEVICE_RESET. */
  lemma TraceRefinesProtocol(job: Job, start: Session, polls: seq<Poll>)
    requires Loadable(job) && start.status == DEVICE_RESET
    ensures var stages := Protocol(job);
            var s, phase := Run(job, start, polls), PhaseAfter(stages, polls);
            && OnProtocol(stages, start, s, phase)
            && ProductiveCount(stages, polls) == Passed(|stages|, s.done - start.done, phase)
            && (phase == 0 <==> s.status == DEVICE_RESET)
  {
    TraceOnProtocol(job, start, polls);
    TraceCounts(job, start, polls);
    StatusesDistinct(job, PhaseAfter(Protocol(job), polls));
  }

  lemma OneRoundMore(n: nat, rounds: nat)
    ensures n * (rounds + 1) == n * rounds + n
  {
  }

  lemma StatusesDistinct(job: Job, i: nat)
    requires i < |Protocol(job)|
    ensures i == 0 <==> Protocol(job)[i].status == DEVICE_RESET
  {
  }

  /** A buffer too long for the command frame: the machine stays before the load for good. */
  lemma {:induction false} OversizeNeverLoads(block: bv16, page: bv16, data: seq<bv8>, polls: seq<Poll>)
    requires 3 + |data| > 2112
    ensures var s := Run(WriteJob(block, page, data), Session(DEVICE_RESET, [], 0), polls);
            && s.done == 0
            && s.status in {DEVICE_RESET, WRITE_ENABLE, WRITE_DISABLE}
            && s.bus <= [[WRITE_STATUS_REGISTER_L, STATUS_REGISTER_1_ADDR, 0], [WRITE_ENABLE]]
            && |s.bus| == (if s.status == DEVICE_RESET then 0 else if s.status == WRITE_ENABLE then 1 else 2)
  {
    if polls != [] {
      OversizeNeverLoads(block, page, data, polls[..|polls| - 1]);
    }
  }

  /** Five polls with BUSY clear and WEL set complete a write. */
  lemma FivePollsWrite(block: bv16, page: bv16, data: seq<bv8>)
    requires |data| <= LOAD_LIMIT
    ensures var go := Poll(false, true);
            Run(WriteJob(block, page, data), Session(DEVICE_RESET, [], 0), [go, go, go, go, go]).done == 1
  {
    var go := Poll(false, true);
    var job, start := WriteJob(block, page, data), Session(DEVICE_RESET, [], 0);
    var one, two, three := [go], [go] + [go], [go] + [go] + [go];
    RunOneMore(job, start, [], go);
    RunOneMore(job, start, one, go);
    RunOneMore(job, start, two, go);
    RunOneMore(job, start, three, go);
    RunOneMore(job, start, three + [go], go);
    assert [] + [go] == one;
    assert three + [go] + [go] == [go, go, go, go, go];
  }

  lemma RunOneMore(job: Job, s: Session, polls: seq<Poll>, poll: Poll)
    ensures var before := Run(job, s, polls);
            Run(job, s, polls + [poll]) == Extend(before, JobStep(job, before.status, poll))
  {
    assert (polls + [poll])[..|polls|] == polls;
  }

  /** A poll of a write returns an exception, -1, iff it would have to load a buffer that does not fit the
      2112-byte frame behind the three bytes of the load command: after the write-enable, on a device that is
      not busy and has its latch set. Any other poll returns 1 when it sends the execute command, else 0. */
  lemma ExceptionIff(block: bv16, page: bv16, data: seq<bv8>, polls: seq<Poll>, poll: Poll)
    ensures var s := Run(WriteJob(block, page, data), Session(DEVICE_RESET, [], 0), polls);
            var o := JobStep(WriteJob(block, page, data), s.status, poll);
            && (o.ret == -1 <==> 3 + |data| > 2112 && |s.bus| == 2 && !poll.busy && poll.wel)
            && (o.ret == -1 ==> o.sent == [] && o.status == s.status)
            && (o.ret == 1 <==> o.sent != [] && |o.sent[0]| == 4 && o.sent[0][0] == 0x10)
            && (o.ret == -1 || o.ret == 0 || o.ret == 1)
  {
    var job, start := WriteJob(block, page, data), Session(DEVICE_RESET, [], 0);
    var s := Run(job, start, polls);
    if |data| > LOAD_LIMIT {
      OversizeNeverLoads(block, page, data, polls);
    } else {
      TraceOnProtocol(job, start, polls);
      JobFollowsProtocol(job, PhaseAfter(Protocol(job), polls), poll);
      LoadedFrame(data);
    }
  }

  lemma LoadedFrame(data: seq<bv8>)
    ensures ([RANDOM_PG_DATA_LOAD, 0, 0] + data)[0] == 0x84
  {
  }

  /** A page write can complete at all iff the buffer fits the command frame. */
  lemma WritableIff(block: bv16, page: bv16, data: seq<bv8>)
    ensures (exists polls :: Run(WriteJob(block, page, data), Session(DEVICE_RESET, [], 0), polls).done > 0)
            <==> 3 + |data| <= 2112
  {
    if |data| <= LOAD_LIMIT {
      FivePollsWrite(block, page, data);
    } else {
      forall polls ensures Run(WriteJob(block, page, data), Session(DEVICE_RESET, [], 0), polls).done == 0 {
        OversizeNeverLoads(block, page, data, polls);
      }
    }
  }

  // ----- the bytes on the bus

  /** High and low address byte of a page of a block. */
  function AddressHigh(block: bv16): bv8 { ((block >> 2) & 0xFF) as bv8 }

  function AddressLow(block: bv16, page: bv16): bv8
  {
    (((block & 0x3) << 6) | (page & 0x3F)) as bv8
  }

  lemma AddressesOnBus(block: bv16, page: bv16)
    ensures High(block) == AddressHigh(block) && Low(block, page) == AddressLow(block, page)
  {
    LowBits(block, page);
  }

  lemma LowBits(block: bv16, page: bv16)
    ensures (((block << 6) & 0x00C0) as bv8) | ((page & 0x003F) as bv8) == (((block & 0x3) << 6) | (page & 0x3F)) as bv8
  {
  }

  lemma OneRound(cs: seq<Command>)
    ensures [] + (Rounds(cs, 1) + cs[..0]) == cs
  {
    assert Rounds(cs, 0) == [];
  }

  /** However the device answered, a session that has completed one job and started no second one has sent
      exactly the job's commands. */
  lemma OneJobOnBus(job: Job, polls: seq<Poll>)
    requires Loadable(job)
    ensures var s := Run(job, Session(DEVICE_RESET, [], 0), polls);
            s.done == 1 && s.status == 0xFF ==> s.bus == Commands(Protocol(job))
  {
    TraceRefinesProtocol(job, Session(DEVICE_RESET, [], 0), polls);
    OneRound(Commands(Protocol(job)));
  }

  /** Load, execute and erase change the array: they wait for the write-enable latch. */
  predicate NeedsLatch(cmd: Command)
  {
    cmd != [] && (cmd[0] == 0x84 || cmd[0] == 0x10 || cmd[0] == 0xD8)
  }

  /** Whatever went before, a poll of a job sends its next command unless the device is busy or the command
      needs the write-enable latch and it is not set; then nothing changes. */
  lemma LatchGuards(job: Job, polls: seq<Poll>, poll: Poll)
    requires Loadable(job)
    ensures var s := Run(job, Session(0xFF, [], 0), polls);
            var next := JobStep(job, s.status, Poll(false, true));
            && |next.sent| == 1
            && JobStep(job, s.status, poll)
               == if poll.busy || (NeedsLatch(next.sent[0]) && !poll.wel) then Outcome(s.status, [], 0) else next
  {
    var stages, phase := Protocol(job), PhaseAfter(Protocol(job), polls);
    TraceOnProtocol(job, Session(0xFF, [], 0), polls);
    JobFollowsProtocol(job, phase, poll);
    JobFollowsProtocol(job, phase, Poll(false, true));
    LatchOfStage(job, phase);
  }

  lemma LatchOfStage(job: Job, i: nat)
    requires i < |Protocol(job)|
    ensures NeedsLatch(Protocol(job)[i].command) <==> Protocol(job)[i].needsWel
  {
    if job.WriteJob? {
      LoadedFrame(job.data);
    }
  }

  /** A page write: unprotect, write-enable, load of the whole buffer at column 0, write-enable, execute at
      the page's address. */
  lemma WriteOnBus(block: bv16, page: bv16, data: seq<bv8>, polls: seq<Poll>)
    requires 3 + |data| <= 2112
    ensures var s := Run(WriteJob(block, page, data), Session(0xFF, [], 0), polls);
            s.done == 1 && s.status == 0xFF ==>
              s.bus == [[0x1F, 0xA0, 0], [0x06], [0x84, 0, 0] + data, [0x06],
                        [0x10, 0, AddressHigh(block), AddressLow(block, page)]]
  {
    OneJobOnBus(WriteJob(block, page, data), polls);
    AddressesOnBus(block, page);
    var cs := Commands(WriteProtocol(block, page, data));
    assert cs == [cs[0], cs[1], cs[2], cs[3], cs[4]];
  }

  /** A block erase: unprotect, write-enable, erase at the address of the block's page 0. */
  lemma EraseOnBus(block: bv16, polls: seq<Poll>)
    ensures var s := Run(EraseJob(block), Session(0xFF, [], 0), polls);
            s.done == 1 && s.status == 0xFF ==>
              s.bus == [[0x1F, 0xA0, 0], [0x06], [0xD8, 0, AddressHigh(block), AddressLow(block, 0)]]
  {
    OneJobOnBus(EraseJob(block), polls);
    AddressesOnBus(block, 0);
    var cs := Commands(EraseProtocol(block));
    assert cs == [cs[0], cs[1], cs[2]];
  }

  /** A page read: ECC off and buffer mode on in the register the device returned, page load, read from
      column 0. */
  lemma ReadOnBus(block: bv16, page: bv16, prot: bv8, polls: seq<Poll>)
    ensures var s := Run(ReadJob(block, page, prot), Session(0xFF, [], 0), polls);
            s.done == 1 && s.status == 0xFF ==>
              s.bus == [[0x1F, 0xB0, (prot & 0xEF) | 0x08],
                        [0x13, 0, AddressHigh(block), AddressLow(block, page)], [0x03, 0, 0, 0]]
  {
    OneJobOnBus(ReadJob(block, page, prot), polls);
    AddressesOnBus(block, page);
    ModeBits(prot);
    var cs := Commands(ReadProtocol(block, page, prot));
    assert cs == [cs[0], cs[1], cs[2]];
  }

  lemma ModeBits(prot: bv8)
    ensures (prot & !STATUS_REGISTER_2_ECC_E) | STATUS_REGISTER_2_BUF == (prot & 0xEF) | 0x08
  {
  }

  /** Jobs one after the other on the same state byte compose: a session that has just returned DONE
      is a valid start for any other job. */
  lemma JobsCompose(first: Job, second: Job, a: seq<Poll>, b: seq<Poll>)
    requires Loadable(first) && Loadable(second)
    requires PhaseAfter(Protocol(first), a) == 0
    ensures var start := Session(DEVICE_RESET, [], 0);
            var s1 := Run(first, start, a);
            var s2, phase := Run(second, s1, b), PhaseAfter(Protocol(second), b);
            && s1.status == DEVICE_RESET
            && s2.done >= s1.done
            && s2.bus == Rounds(Commands(Protocol(first)), s1.done)
                         + (Rounds(Commands(Protocol(second)), s2.done - s1.done) + Commands(Protocol(second))[..phase])
  {
    var start := Session(DEVICE_RESET, [], 0);
    TraceRefinesProtocol(first, start, a);
    WholeRounds(Protocol(first), Run(first, start, a));
    TraceRefinesProtocol(second, Run(first, start, a), b);
  }

  lemma WholeRounds(stages: seq<Stage>, s: Session)
    requires OnProtocol(stages, Session(DEVICE_RESET, [], 0), s, 0)
    ensures s.bus == Rounds(Commands(stages), s.done)
  {
    assert Commands(stages)[..0] == [];
  }

  /** The state byte and the bus the three calls share. */
  class Device {
    var status: bv8
    var bus: seq<Command>

    constructor ()
      ensures status == DEVICE_RESET && bus == []
    {
      status, bus := DEVICE_RESET, [];
    }

    method Send(cmd: Command)
      modifies this`bus
      ensures bus == old(bus) + [cmd]
    {
      bus := bus + [cmd];
    }

    method WriteBlockPage(poll: Poll, block: bv16, page: bv16, data: seq<bv8>) returns (ret: int)
      modifies this
      ensures var o := WriteStep(old(status), poll, block, page, data);
              status == o.status && bus == old(bus) + o.sent && ret == o.ret
    {
      if poll.busy {
        return NOT_DONE;
      }
      if status == DEVICE_RESET {
        Send([WRITE_STATUS_REGISTER_L, STATUS_REGISTER_1_ADDR, 0]);
        status := WRITE_ENABLE;
      } else if status == WRITE_ENABLE {
        Send([WRITE_ENABLE]);
        status := WRITE_DISABLE;
      } else if status == WRITE_DISABLE {
        if poll.wel {
          if |data| > LOAD_LIMIT {
            return EXCEPTION;
          }
          Send([RANDOM_PG_DATA_LOAD, 0, 0] + data);
          status := RANDOM_PG_DATA_LOAD;
        }
      } else if status == RANDOM_PG_DATA_LOAD {
        Send([WRITE_ENABLE]);
        status := PG_EXECUTE;
      } else if status == PG_EXECUTE {
        if poll.wel {
          Send([PG_EXECUTE, 0, High(block), Low(block, page)]);
          status := DEVICE_RESET;
          return DONE;
        }
      }
      return NOT_DONE;
    }

    method EraseBlock(poll: Poll, block: bv16) returns (ret: int)
      modifies this
      ensures var o := EraseStep(old(status), poll, block);
              status == o.status && bus == old(bus) + o.sent && ret == o.ret
    {
      if poll.busy {
        return NOT_DONE;
      }
      if status == DEVICE_RESET {
        Send([WRITE_STATUS_REGISTER_L, STATUS_REGISTER_1_ADDR, 0]);
        status := WRITE_ENABLE;
      } else if status == WRITE_ENABLE {
        Send([WRITE_ENABLE]);
        status := BLOCK_ERASE;
      } else if status == BLOCK_ERASE {
        if poll.wel {
          Send([BLOCK_ERASE, 0, High(block), Low(block, 0)]);
          status := DEVICE_RESET;
          return DONE;
        }
      }
      return NOT_DONE;
    }

    /** `answer` is what the chip shifts out behind the READ command; the caller's buffer receives
        it on exactly that poll. */
    method ReadByBlockPage(poll: Poll, block: bv16, page: bv16, prot: bv8, answer: seq<bv8>, rbf: array<bv8>)
      returns (ret: int)
      requires |answer| == rbf.Length
      modifies this, rbf
      ensures var o := ReadStep(old(status), poll, block, page, prot);
              status == o.status && bus == old(bus) + o.sent && ret == o.ret
      ensures rbf[..] == if ret == DONE then answer else old(rbf[..])
    {
      if poll.busy {
        return NOT_DONE;
      }
      if status == DEVICE_RESET {
        var mode := prot & !STATUS_REGISTER_2_ECC_E;
        mode := mode | STATUS_REGISTER_2_BUF;
        Send([WRITE_STATUS_REGISTER_L, STATUS_REGISTER_2_ADDR, mode]);
        status := PG_DATA_READ;
      } else if status == PG_DATA_READ {
        Send([PG_DATA_READ, 0, High(block), Low(block, page)]);
        status := READ;
      } else if status == READ {
        Send([READ, 0, 0, 0]);
        forall i | 0 <= i < rbf.Length {
          rbf[i] := answer[i];
        }
        status := DEVICE_RESET;
        return DONE;
      }
      return NOT_DONE;
    }
  }
}
