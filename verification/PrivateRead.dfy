/** The private file read: one exclusive session, four block reads, one copied file.
    The controller and the parsers answer as they please; they are parameters. */
module PrivateRead {
  import opened Architecture
  import opened Seqs
  import opened FirmwareBytes
  import opened SessionStates

  const BLOCK_BYTES: nat := 4096
  const FILE_BYTES: nat := 128

  datatype Status =
    | Ok
    | Absent
    | ParserFailure
    | NvmeFailure
    | SessionState
    | BlockResult
    | Ownership
    | Content
    | TeardownFailure
    | PrivateBusy
    | PrivateBadToken
    | PrivateBadBuffer

  /** What the controller layer reports about its session. */
  datatype Session = Session(
    readCount: nat, completions: nat, ignored: nat, guardClean: bool, changed: bool, cpuOwned: bool)

  const NO_SESSION := Session(0, 0, 0, false, false, false)

  /** One read: whether it completed, whether the block may be viewed, and the block. */
  datatype Outcome = Outcome(ok: bool, viewOk: bool, block: seq<Byte>, session: Session)

  datatype Opened = SessionOpened(session: Session) | SessionAbsent | SessionFailed

  datatype Geometry = Geometry(firstFat: nat, firstRoot: nat)
  datatype Entry = Entry(fileSize: nat, nameMatches: bool)

  /** The parsers' answers, as functions of exactly what they are given. */
  datatype Parsers<!F> = Parsers(
    query: bool,
    bpb: (seq<Byte>, Session) -> Option<Geometry>,
    fat: (seq<Byte>, Geometry) -> Option<F>,
    root: (seq<Byte>, Geometry) -> Option<Entry>,
    extent: (Geometry, Entry, F) -> Option<nat>)

  datatype Token = Token(
    generation: nat, completions: nat, fileBytes: nat, readCount: nat, cpuOwned: bool, active: bool)

  const NO_TOKEN := Token(0, 0, 0, 0, false, false)

  // ----- what a successful session is -----

  /** A read that delivered one whole clean block by exactly one interrupt, and gave it back. */
  predicate GoodRead(before: Session, o: Outcome) {
    && o.ok && o.viewOk
    && |o.block| % 0x1_0000_0000 == BLOCK_BYTES
    && (o.session.completions - before.completions) % WORD == 1
    && o.session.ignored == 0 && o.session.guardClean && o.session.changed && o.session.cpuOwned
  }

  /** A whole block of 4096 bytes, one more interrupt than before, nothing ignored, the guards
      intact, the buffer rewritten and the CPU's again. */
  predicate Clean(before: Session, o: Outcome) {
    && |o.block| % 0x1_0000_0000 == 4096
    && (o.session.completions - before.completions) % 0x1_0000_0000_0000_0000 == 1
    && o.session.ignored == 0 && o.session.guardClean && o.session.changed && o.session.cpuOwned
  }

  lemma GoodReadExactly(before: Session, o: Outcome)
    ensures GoodRead(before, o) <==> o.ok && o.viewOk && Clean(before, o)
  {
  }

  /** Reads two and three: the allocation table, then the file's entry and place. */
  function Place<F>(device: (nat, nat) -> Outcome, p: Parsers<F>, g: Geometry, s: Session)
    : Option<(nat, Entry, Session)>
  {
    var r2 := device(g.firstFat, 2);
    if !GoodRead(s, r2) || p.fat(r2.block, g).None? then None
    else
      var r3 := device(g.firstRoot, 3);
      if !GoodRead(r2.session, r3) || p.root(r3.block, g).None? then None
      else
        var e := p.root(r3.block, g).value;
        var extent := p.extent(g, e, p.fat(r2.block, g).value);
        if extent.None? || !e.nameMatches then None else Some((extent.value, e, r3.session))
  }

  /** Read four, and the books at the end. */
  function Fetch(device: (nat, nat) -> Outcome, lba: nat, e: Entry, s: Session): Option<Outcome> {
    var r4 := device(lba, 4);
    if GoodRead(s, r4) && |r4.block| >= e.fileSize && e.fileSize == FILE_BYTES &&
       r4.session.readCount == 4 && r4.session.completions == 4
    then Some(r4) else None
  }

  /** All four reads in order: the answer is the fourth. */
  function WholeRead<F>(device: (nat, nat) -> Outcome, p: Parsers<F>, s: Session): Option<Outcome> {
    var r1 := device(0, 1);
    if !GoodRead(s, r1) || p.bpb(r1.block, r1.session).None? then None
    else match Place(device, p, p.bpb(r1.block, r1.session).value, r1.session)
      case None => None
      case Some((lba, e, t)) => Fetch(device, lba, e, t)
  }

  /** The four reads of a session, one after another: the volume's description, its allocation
      table, its root directory with the one named file of 128 bytes, and that file's block. */
  ghost predicate FourReads<F(!new)>(
    device: (nat, nat) -> Outcome, p: Parsers<F>, s: Session, g: Geometry, f: F, e: Entry, lba: nat)
  {
    var r1, r2, r3, r4 := device(0, 1), device(g.firstFat, 2), device(g.firstRoot, 3), device(lba, 4);
    && r1.ok && r1.viewOk && Clean(s, r1) && p.bpb(r1.block, r1.session) == Some(g)
    && r2.ok && r2.viewOk && Clean(r1.session, r2) && p.fat(r2.block, g) == Some(f)
    && r3.ok && r3.viewOk && Clean(r2.session, r3) && p.root(r3.block, g) == Some(e) && e.nameMatches
    && p.extent(g, e, f) == Some(lba)
    && r4.ok && r4.viewOk && Clean(r3.session, r4) && e.fileSize == 128 && |r4.block| >= 128
    && r4.session.readCount == 4 && r4.session.completions == 4
  }

  /** A session succeeds exactly when all four reads do, and its answer is the fourth. */
  lemma WholeReadExactly<F(!new)>(device: (nat, nat) -> Outcome, p: Parsers<F>, s: Session)
    ensures WholeRead(device, p, s).Some? <==>
      exists g: Geometry, f: F, e: Entry, lba: nat :: FourReads(device, p, s, g, f, e, lba)
    ensures forall g: Geometry, f: F, e: Entry, lba: nat :: FourReads(device, p, s, g, f, e, lba) ==>
      WholeRead(device, p, s) == Some(device(lba, 4))
  {
    hide Clean;
    forall before, o ensures GoodRead(before, o) <==> o.ok && o.viewOk && Clean(before, o) {
      GoodReadExactly(before, o);
    }
    hide GoodRead;
    var whole := WholeRead(device, p, s);
    if whole.Some? {
      var r1 := device(0, 1);
      var g := p.bpb(r1.block, r1.session).value;
      var f := p.fat(device(g.firstFat, 2).block, g).value;
      var (lba, e, t) := Place(device, p, g, r1.session).value;
      assert FourReads(device, p, s, g, f, e, lba);
    }
  }

  // ----- who holds the block -----

  datatype Event = Moved(state: State) | Issued(lba: nat, ordinal: nat) | Looked(ordinal: nat)

  datatype Custody = Nobody | Controller(ordinal: nat) | Cpu(ordinal: nat)

  function After(c: Custody, e: Event): Custody {
    match e
    case Issued(_, ordinal) => Controller(ordinal)
    case Looked(_) => c
    case Moved(s) =>
      if s == BlockControllerOwned then Nobody
      else if s == BlockCpuOwned then (if c.Controller? then Cpu(c.ordinal) else Nobody)
      else c
  }

  function HeldBy(log: seq<Event>): Custody
    decreases |log|
  {
    if log == [] then Nobody else After(HeldBy(log[..|log| - 1]), log[|log| - 1])
  }

  /** A block is looked at only while the CPU holds that very block. */
  ghost predicate Disciplined(log: seq<Event>) {
    forall i :: 0 <= i < |log| && log[i].Looked? ==> HeldBy(log[..i]) == Cpu(log[i].ordinal)
  }

  /** The ordinals issued to the controller, in order. */
  function Ordinals(log: seq<Event>): seq<nat>
    decreases |log|
  {
    if log == [] then []
    else Ordinals(log[..|log| - 1]) + if log[|log| - 1].Issued? then [log[|log| - 1].ordinal] else []
  }

  lemma Extend(log: seq<Event>, e: Event)
    requires Disciplined(log) && (e.Looked? ==> HeldBy(log) == Cpu(e.ordinal))
    ensures Disciplined(log + [e]) && HeldBy(log + [e]) == After(HeldBy(log), e)
    ensures Ordinals(log + [e]) == Ordinals(log) + if e.Issued? then [e.ordinal] else []
  {
    var more := log + [e];
    assert more[..|log|] == log;
    forall i | 0 <= i < |more| && more[i].Looked? ensures HeldBy(more[..i]) == Cpu(more[i].ordinal) {
      if i < |log| { assert more[..i] == log[..i]; }
    }
  }

  // ----- the session object -----

  predicate CanStop(s: State) {
    s == Stopping || Transition(s, Stopping) == None
  }

  class Reader {
    var owned: bool
    var state: State
    var generation: nat
    var session: Session
    var nextGeneration: nat
    ghost var log: seq<Event>   // since the session answer

    ghost predicate Valid()
      reads this
    {
      && 0 < nextGeneration < WORD
      && (owned ==> 0 < generation < WORD && state in {FileRead, Stopping})
      && Disciplined(log)
    }

    constructor ()
      ensures Valid() && !owned
    {
      owned, state, generation, session, nextGeneration, log := false, Unopened, 0, NO_SESSION, 1, [];
      new;
      NothingLogged();
    }

    method Move(next: State) returns (ok: bool)
      requires Disciplined(log)
      modifies this`state, this`log
      ensures ok == (Transition(old(state), next) == None)
      ensures !ok ==> state == old(state)
      ensures ok ==> state == next
      ensures Ordinals(log) == Ordinals(old(log))
      ensures Disciplined(log) && HeldBy(log) == if ok then After(HeldBy(old(log)), Moved(next)) else HeldBy(old(log))
    {
      if Transition(state, next).Some? {
        return false;
      }
      Extend(log, Moved(next));
      state := next;
      log := log + [Moved(next)];
      return true;
    }

    /** Hand the buffer over, read one block, and take it back before anything looks at it. */
    method ReadBlock(device: (nat, nat) -> Outcome, lba: nat, ordinal: nat)
      returns (status: Status, block: seq<Byte>)
      requires Disciplined(log)
      modifies this`state, this`session, this`log
      ensures Disciplined(log) && (CanStop(old(state)) ==> CanStop(state))
      ensures status == SessionState <==> Transition(old(state), BlockControllerOwned).Some?
      ensures status == Ok <==>
        Transition(old(state), BlockControllerOwned) == None && GoodRead(old(session), device(lba, ordinal))
      ensures status in {Ok, SessionState, NvmeFailure, Ownership, BlockResult}
      ensures status != SessionState ==>
        var o := device(lba, ordinal);
        && (status == NvmeFailure <==> !o.ok) && (status == Ownership <==> o.ok && !o.viewOk)
        && (status == BlockResult <==> o.ok && o.viewOk && !Clean(old(session), o))
      ensures status == Ok ==>
        && block == device(lba, ordinal).block && session == device(lba, ordinal).session
        && state == BlockCpuOwned && HeldBy(log) == Cpu(ordinal)
        && Ordinals(log) == Ordinals(old(log)) + [ordinal]
    {
      hide Disciplined, Ordinals, HeldBy;
      var before := session;
      block := [];
      var moved := Move(BlockControllerOwned);
      if !moved {
        return SessionState, [];
      }
      Extend(log, Issued(lba, ordinal));
      log := log + [Issued(lba, ordinal)];
      var o := device(lba, ordinal);
      session := o.session;
      if !o.ok {
        return NvmeFailure, [];
      }
      moved := Move(BlockCpuOwned);
      if !o.viewOk {
        return Ownership, [];
      }
      block := o.block;
      if |block| % 0x1_0000_0000 != BLOCK_BYTES || (session.completions - before.completions) % WORD != 1 ||
         session.ignored != 0 || !session.guardClean || !session.changed || !session.cpuOwned {
        return BlockResult, block;
      }
      return Ok, block;
    }

    ghost method Look(ordinal: nat)
      requires Disciplined(log) && HeldBy(log) == Cpu(ordinal)
      modifies this`log
      ensures Disciplined(log) && HeldBy(log) == Cpu(ordinal) && Ordinals(log) == Ordinals(old(log))
    {
      Extend(log, Looked(ordinal));
      log := log + [Looked(ordinal)];
    }

    /** Stop, close and forget the session; a close that fails keeps it for another try. */
    method Cleanup(closes: bool) returns (status: Status)
      requires Disciplined(log)
      modifies this`owned, this`state, this`generation, this`session, this`log
      ensures Disciplined(log)
      ensures !old(owned) ==> status == Ok && !owned && generation == old(generation)
      ensures old(owned) && closes ==> !owned && generation == 0 && state == Unopened && session == NO_SESSION
      ensures old(owned) && closes ==> (status == Ok <==> CanStop(old(state)))
      ensures old(owned) && !closes ==> status == TeardownFailure && owned && generation == old(generation)
      ensures old(owned) && !closes && CanStop(old(state)) ==> state == Stopping
      ensures status in {Ok, SessionState, TeardownFailure}
    {
      hide Disciplined, Ordinals, HeldBy;
      status := Ok;
      if !owned {
        return;
      }
      if state != Stopping {
        var stopped := Move(Stopping);
        if !stopped {
          status := SessionState;
        }
      }
      if !closes {
        return TeardownFailure;
      }
      var released := Move(Released);
      if !released {
        status := SessionState;
      }
      owned, state, generation, session := false, Unopened, 0, NO_SESSION;
    }

    /** Read one: the volume's own description. */
    method ValidateVolume<F>(device: (nat, nat) -> Outcome, p: Parsers<F>)
      returns (status: Status, g: Geometry)
      requires state == SessionReady && Disciplined(log)
      modifies this`state, this`session, this`log
      ensures Disciplined(log) && CanStop(state)
      ensures status !in {TeardownFailure, PrivateBadBuffer, PrivateBusy, Absent}
      ensures status == Ok <==>
        GoodRead(old(session), device(0, 1)) && p.bpb(device(0, 1).block, device(0, 1).session).Some?
      ensures status == ParserFailure <==>
        GoodRead(old(session), device(0, 1)) && p.bpb(device(0, 1).block, device(0, 1).session).None?
      ensures status == Ok ==>
        && Some(g) == p.bpb(device(0, 1).block, device(0, 1).session)
        && session == device(0, 1).session && state == VolumeValidated
        && Ordinals(log) == Ordinals(old(log)) + [1]
    {
      hide Disciplined, Ordinals, HeldBy, GoodRead;
      g := Geometry(0, 0);
      var block;
      status, block := ReadBlock(device, 0, 1);
      if status != Ok {
        return;
      }
      Look(1);
      var bpb := p.bpb(block, session);
      if bpb.None? {
        status := ParserFailure;
        return;
      }
      g := bpb.value;
      var moved := Move(VolumeValidated);
    }

    /** Reads two and three, each inspected only once the CPU has its block back. */
    method LocateFile<F>(device: (nat, nat) -> Outcome, p: Parsers<F>, g: Geometry)
      returns (status: Status, lba: nat, entry: Entry)
      requires state == VolumeValidated && Disciplined(log)
      modifies this`state, this`session, this`log
      ensures Disciplined(log) && CanStop(state)
      ensures status !in {TeardownFailure, PrivateBadBuffer, PrivateBusy, Absent}
      ensures status == Ok <==> Place(device, p, g, old(session)).Some?
      ensures status == Ok ==> Place(device, p, g, old(session)).value == (lba, entry, session) && state == FileLocated
      ensures status == Ok ==> Ordinals(log) == Ordinals(old(log)) + [2, 3]
    {
      hide Disciplined, Ordinals, HeldBy, GoodRead;
      lba, entry := 0, Entry(0, false);
      var block;
      status, block := ReadBlock(device, g.firstFat, 2);
      if status != Ok {
        return;
      }
      Look(2);
      var fat := p.fat(block, g);
      if fat.None? {
        status := ParserFailure;
        return;
      }
      status, block := ReadBlock(device, g.firstRoot, 3);
      if status != Ok {
        return;
      }
      Look(3);
      var root := p.root(block, g);
      if root.None? {
        status := ParserFailure;
        return;
      }
      var extent := p.extent(g, root.value, fat.value);
      if extent.None? || !root.value.nameMatches {
        status := ParserFailure;
        return;
      }
      var moved := Move(FileLocated);
      return Ok, extent.value, root.value;
    }

    /** The fourth read, copied out byte by byte while the CPU holds it. */
    method FetchFile(device: (nat, nat) -> Outcome, lba: nat, entry: Entry, destination: array<Byte>)
      returns (status: Status)
      requires state == FileLocated && Disciplined(log) && destination.Length == FILE_BYTES
      modifies this`state, this`session, this`log, destination
      ensures Disciplined(log) && CanStop(state)
      ensures status !in {TeardownFailure, PrivateBadBuffer, PrivateBusy, Absent}
      ensures status == Ok <==> Fetch(device, lba, entry, old(session)).Some?
      ensures status == Ok ==>
        && state == FileRead && session == device(lba, 4).session
        && Ordinals(log) == Ordinals(old(log)) + [4]
        && |device(lba, 4).block| >= FILE_BYTES && destination[..] == device(lba, 4).block[..FILE_BYTES]
    {
      hide Disciplined, Ordinals, HeldBy;
      var block;
      status, block := ReadBlock(device, lba, 4);
      if status != Ok {
        return;
      }
      if |block| < entry.fileSize || entry.fileSize != FILE_BYTES {
        return Content;
      }
      Look(4);
      var k := 0;
      while k < FILE_BYTES
        invariant k <= FILE_BYTES
        invariant destination[..k] == block[..k]
        modifies destination
      {
        destination[k] := block[k];
        k := k + 1;
      }
      var moved := Move(FileRead);
      if !moved || session.readCount != 4 || session.completions != 4 || session.ignored != 0 || !session.cpuOwned {
        return Ownership;
      }
      return Ok;
    }

    /** The reads of an open session, in order. */
    method ReadFile<F>(device: (nat, nat) -> Outcome, p: Parsers<F>, destination: array<Byte>)
      returns (status: Status)
      requires state == SessionReady && Disciplined(log) && destination.Length == FILE_BYTES
      modifies this`state, this`session, this`log, destination
      ensures Disciplined(log) && CanStop(state)
      ensures status !in {TeardownFailure, PrivateBadBuffer, PrivateBusy, Absent}
      ensures status == Ok <==> WholeRead(device, p, old(session)).Some?
      ensures status == Ok ==> state == FileRead && Ordinals(log) == Ordinals(old(log)) + [1, 2, 3, 4]
      ensures status == Ok ==> Delivered(WholeRead(device, p, old(session)).value, session, destination[..])
    {
      hide Disciplined, Ordinals, GoodRead, Place;
      var g, lba, entry;
      status, g := ValidateVolume(device, p);
      if status != Ok {
        return;
      }
      status, lba, entry := LocateFile(device, p, g);
      if status != Ok {
        return;
      }
      status := FetchFile(device, lba, entry, destination);
    }

    /** Take the session the controller opened, under a fresh generation. */
    method Begin(taken: Session)
      requires 0 < nextGeneration < WORD
      modifies this
      ensures owned && state == SessionReady && session == taken && generation == old(nextGeneration)
      ensures 0 < nextGeneration < WORD && Disciplined(log) && Ordinals(log) == []
    {
      session, log := taken, [];
      owned, state, generation := true, Unopened, nextGeneration;
      nextGeneration := if nextGeneration + 1 == WORD then 1 else nextGeneration + 1;
      var moved := Move(SessionReady);
    }

    /** Read the file, or wipe the destination and tear the session down. */
    method Deliver<F>(destination: array<Byte>, device: (nat, nat) -> Outcome, p: Parsers<F>, closes: bool)
      returns (status: Status)
      requires owned && state == SessionReady && Disciplined(log) && destination.Length == FILE_BYTES
      modifies this`owned, this`state, this`generation, this`session, this`log, destination
      ensures Disciplined(log)
      ensures status == Ok <==> WholeRead(device, p, old(session)).Some?
      ensures status == Ok ==> owned && state == FileRead && generation == old(generation)
      ensures status == Ok ==> Ordinals(log) == Ordinals(old(log)) + [1, 2, 3, 4]
      ensures status == Ok ==> Delivered(WholeRead(device, p, old(session)).value, session, destination[..])
      ensures status != Ok ==> AllZero(destination[..]) && (owned <==> status == TeardownFailure)
      ensures status == TeardownFailure <==> WholeRead(device, p, old(session)).None? && !closes
      ensures status == TeardownFailure ==> state == Stopping && generation == old(generation)
      ensures status !in {PrivateBadBuffer, PrivateBusy, Absent}
    {
      hide WholeRead, Disciplined, Ordinals, Delivered, AllZero;
      status := ReadFile(device, p, destination);
      if status == Ok {
        return;
      }
      Zero(destination);
      var cleaned := Cleanup(closes);
      if cleaned != Ok {
        status := TeardownFailure;
      }
    }

    /** Success delivers the file's 128 bytes and a token; any refusal past the buffer
        check leaves the destination zero and no token. */
    method Open<F>(destination: array<Byte>, device: (nat, nat) -> Outcome, p: Parsers<F>, answer: Opened, closes: bool)
      returns (status: Status, token: Token)
      requires Valid()
      modifies this, destination
      ensures Valid() && (old(owned) ==> unchanged(this))
      ensures status == PrivateBadBuffer <==> destination.Length != FILE_BYTES
      ensures status == PrivateBadBuffer ==> unchanged(this) && destination[..] == old(destination[..])
      ensures status == PrivateBusy <==> destination.Length == FILE_BYTES && old(owned)
      ensures status == Ok <==> destination.Length == FILE_BYTES && !old(owned) && Succeeds(device, p, answer)
      ensures status == TeardownFailure <==>
        destination.Length == FILE_BYTES && !old(owned) && Strands(device, p, answer, closes)
      ensures status == Absent <==>
        destination.Length == FILE_BYTES && !old(owned) && p.query && answer.SessionAbsent?
      ensures status == Ok ==>
        && owned && state == FileRead && 0 < generation && Ordinals(log) == [1, 2, 3, 4]
        && Delivered(WholeRead(device, p, answer.session).value, session, destination[..])
        && token == Token(generation, 4, FILE_BYTES, 4, true, true)
      ensures status != Ok ==> token == NO_TOKEN
      ensures status !in {Ok, PrivateBadBuffer} ==> AllZero(destination[..])
      ensures status !in {Ok, PrivateBadBuffer} ==> (owned <==> status in {TeardownFailure, PrivateBusy})
    {
      hide WholeRead, Disciplined, Ordinals, Delivered, AllZero;
      token := NO_TOKEN;
      if destination.Length != FILE_BYTES {
        return PrivateBadBuffer, token;
      }
      Zero(destination);
      if owned {
        return PrivateBusy, token;
      }
      state, generation, session := Unopened, 0, NO_SESSION;
      if !p.query {
        return ParserFailure, token;
      }
      if answer.SessionAbsent? {
        return Absent, token;
      }
      if answer.SessionFailed? {
        return NvmeFailure, token;
      }
      Begin(answer.session);
      status := Deliver(destination, device, p, closes);
      if status == Ok {
        DeliveredBooks(device, p, answer.session, session, destination[..]);
        token := Token(generation, session.completions, FILE_BYTES, session.readCount, true, true);
      }
    }

    /** Only the current token closes the session; a failed close may be retried. */
    method Close(token: Token, closes: bool) returns (status: Status, kept: Token)
      requires Valid()
      modifies this
      ensures Valid()
      ensures status == PrivateBadToken <==> !(token.active && old(owned) && token.generation == old(generation))
      ensures status == PrivateBadToken ==> unchanged(this) && kept == token
      ensures status == Ok <==> token.active && old(owned) && token.generation == old(generation) && closes
      ensures status == Ok ==> !owned && kept == NO_TOKEN
      ensures status == TeardownFailure ==> owned && generation == old(generation) && kept == token
      ensures status in {Ok, PrivateBadToken, TeardownFailure}
    {
      hide Disciplined;
      if !token.active || !owned || token.generation != generation {
        return PrivateBadToken, token;
      }
      status := Cleanup(closes);
      kept := if status == Ok then NO_TOKEN else token;
    }
  }

  /** A teardown that fails inside an open strands the session: the caller got no token
      to close it with, and every later open finds it busy. It happens exactly when the
      session opened, the read did not come through, and the controller refused to close. */
  method StrandedAfterFailedTeardown<F>(reader: Reader, destination: array<Byte>, device: (nat, nat) -> Outcome,
                                        p: Parsers<F>, answer: Opened, closes: bool, later: Opened)
    returns (first: Status, closed: Status, again: Status)
    requires reader.Valid() && !reader.owned && destination.Length == FILE_BYTES
    modifies reader, destination
    ensures first == TeardownFailure <==> Strands(device, p, answer, closes)
    ensures reader.owned && closed == PrivateBadToken && again == PrivateBusy <==> Strands(device, p, answer, closes)
  {
    var token, kept;
    first, token := reader.Open(destination, device, p, answer, closes);
    closed, kept := reader.Close(token, true);
    again, kept := reader.Open(destination, device, p, later, true);
  }

  /** The controller opened a session, the read failed, and the session would not close. */
  ghost predicate Strands<F>(device: (nat, nat) -> Outcome, p: Parsers<F>, answer: Opened, closes: bool) {
    p.query && answer.SessionOpened? && WholeRead(device, p, answer.session).None? && !closes
  }

  ghost predicate Succeeds<F>(device: (nat, nat) -> Outcome, p: Parsers<F>, answer: Opened) {
    p.query && answer.SessionOpened? && WholeRead(device, p, answer.session).Some?
  }

  /** The destination holds the file, and the session ends in the fourth read's state. */
  ghost predicate Delivered(r4: Outcome, session: Session, destination: seq<Byte>) {
    session == r4.session && |r4.block| >= FILE_BYTES && destination == r4.block[..FILE_BYTES]
  }

  lemma DeliveredBooks<F>(
    device: (nat, nat) -> Outcome, p: Parsers<F>, s: Session, session: Session, destination: seq<Byte>)
    requires WholeRead(device, p, s).Some? && Delivered(WholeRead(device, p, s).value, session, destination)
    ensures session.readCount == 4 && session.completions == 4
  {
  }

  lemma NothingLogged()
    ensures Disciplined([])
  {
  }

  ghost predicate AllZero(s: seq<Byte>) {
    forall i :: 0 <= i < |s| ==> s[i] == 0
  }

  method Zero(a: array<Byte>)
    modifies a
    ensures AllZero(a[..])
  {
    var k := 0;
    while k < a.Length
      invariant k <= a.Length
      invariant forall i :: 0 <= i < k ==> a[i] == 0
    {
      a[k] := 0;
      k := k + 1;
    }
  }
}
