/** Replay protection of signed adapter requests: an in-memory and a file-backed nonce store. */
module NonceStores {
  import opened Wrappers

  const ACCEPTANCE_WINDOW_MS := 60_000

  type Nonces = map<string, int>

  datatype Line = Line(nonce: string, expiresAtMs: int)

  /** The entries not yet expired. */
  function Pruned(m: Nonces, now: int): Nonces {
    map n | n in m && m[n] >= now :: m[n]
  }

  /** One consume against a map: the map after it, and the answer. */
  function ConsumeFrom(m: Nonces, nonce: string, expiresAt: int, now: int): (Nonces, bool) {
    var kept := Pruned(m, now);
    if nonce in kept then (kept, false) else (kept[nonce := expiresAt], true)
  }

  /** The map a fresh process builds from the file. */
  function Loaded(lines: seq<Line>): Nonces {
    if lines == [] then map[] else Loaded(lines[..|lines| - 1])[lines[|lines| - 1].nonce := lines[|lines| - 1].expiresAtMs]
  }

  method DeleteExpired(m: Nonces, now: int) returns (kept: Nonces)
    ensures kept == Pruned(m, now)
  {
    kept := m;
    var todo := m.Keys;
    while todo != {}
      invariant todo <= m.Keys
      invariant kept == map n | n in m && (n in todo || m[n] >= now) :: m[n]
      decreases |todo|
    {
      var n :| n in todo;
      todo := todo - {n};
      if m[n] < now {
        kept := kept - {n};
      }
    }
  }

  class MemoryNonceStore {
    var nonces: Nonces

    constructor ()
      ensures nonces == map[]
    {
      nonces := map[];
    }

    method Consume(nonce: string, expiresAt: int, now: int) returns (accepted: bool)
      modifies this
      ensures (nonces, accepted) == ConsumeFrom(old(nonces), nonce, expiresAt, now)
    {
      nonces := DeleteExpired(nonces, now);
      if nonce in nonces {
        return false;
      }
      nonces := nonces[nonce := expiresAt];
      accepted := true;
    }
  }

  /** A process's store over a file that outlives it. */
  datatype Stored = Stored(loaded: bool, nonces: Nonces, file: seq<Line>)

  function Current(s: Stored): Nonces {
    if s.loaded then s.nonces else s.nonces + Loaded(s.file)
  }

  /** How the append and sync of one line ends: a failure leaves the line in the file or not. */
  datatype Append = Appended | NotWritten | WrittenThenFailed

  datatype Answer = Accepted | Replayed | Unavailable

  /** One consume of the file store; a failed append is reported, and only the file may remember it. */
  function ConsumeFile(s: Stored, nonce: string, expiresAt: int, now: int, append: Append): (Stored, Answer) {
    var kept := Pruned(Current(s), now);
    if nonce in kept then (Stored(true, kept, s.file), Replayed)
    else
      var file := if append == NotWritten then s.file else s.file + [Line(nonce, expiresAt)];
      if append == Appended then (Stored(true, kept[nonce := expiresAt], file), Accepted)
      else (Stored(true, kept, file), Unavailable)
  }

  class FileNonceStore {
    var loaded: bool
    var nonces: Nonces
    var file: seq<Line>

    function View(): Stored
      reads this
    {
      Stored(loaded, nonces, file)
    }

    constructor (file: seq<Line>)
      ensures View() == Stored(false, map[], file)
    {
      this.loaded, this.nonces, this.file := false, map[], file;
    }

    method Load()
      modifies this`loaded, this`nonces
      ensures loaded && nonces == Current(old(View()))
    {
      if loaded {
        return;
      }
      var i := 0;
      ghost var before := nonces;
      while i < |file|
        invariant 0 <= i <= |file| && file == old(file) && loaded == old(loaded)
        invariant nonces == before + Loaded(file[..i])
      {
        var line := file[i];
        assert file[..i + 1][..i] == file[..i];
        nonces := nonces[line.nonce := line.expiresAtMs];
        i := i + 1;
      }
      assert file[..i] == file;
      loaded := true;
    }

    method Consume(nonce: string, expiresAt: int, now: int, append: Append) returns (answer: Answer)
      modifies this
      ensures (View(), answer) == ConsumeFile(old(View()), nonce, expiresAt, now, append)
    {
      Load();
      nonces := DeleteExpired(nonces, now);
      if nonce in nonces {
        return Replayed;
      }
      if append != NotWritten {
        file := file + [Line(nonce, expiresAt)];
      }
      if append != Appended {
        return Unavailable;
      }
      nonces := nonces[nonce := expiresAt];
      answer := Accepted;
    }

    /** A new process over the same file. */
    method Restart()
      modifies this`loaded, this`nonces
      ensures View() == Stored(false, map[], old(file))
    {
      loaded, nonces := false, map[];
    }
  }

  // ----- the file store is the memory store -----

  datatype Step = Consume(nonce: string, expiresAt: int, now: int, append: Append) | Restart

  function StepFile(s: Stored, step: Step): (Stored, Answer) {
    match step
    case Consume(nonce, expiresAt, now, append) => ConsumeFile(s, nonce, expiresAt, now, append)
    case Restart => (Stored(false, map[], s.file), Unavailable)
  }

  function MemoryAnswers(m: Nonces, steps: seq<Step>): seq<bool>
    decreases |steps|
  {
    if steps == [] then []
    else if steps[0].Restart? then MemoryAnswers(m, steps[1..])
    else
      var (m1, accepted) := ConsumeFrom(m, steps[0].nonce, steps[0].expiresAt, steps[0].now);
      [accepted] + MemoryAnswers(m1, steps[1..])
  }

  function FileAnswers(s: Stored, steps: seq<Step>): seq<bool>
    decreases |steps|
  {
    if steps == [] then []
    else
      var (s1, answer) := StepFile(s, steps[0]);
      (if steps[0].Restart? then [] else [answer == Accepted]) + FileAnswers(s1, steps[1..])
  }

  /** The consumes happen between two times, with a clock that does not go back. */
  predicate Timely(clock: int, steps: seq<Step>, end: int)
    decreases |steps|
  {
    if steps == [] then clock <= end
    else if steps[0].Restart? then Timely(clock, steps[1..], end)
    else clock <= steps[0].now && Timely(steps[0].now, steps[1..], end)
  }

  /** Memory, process and file hold the same unexpired entries. */
  predicate Agree(m: Nonces, s: Stored, clock: int) {
    && Pruned(m, clock) == Pruned(Current(s), clock) == Pruned(Loaded(s.file), clock)
    && (!s.loaded ==> s.nonces == map[])
  }

  lemma PrunedLater(a: Nonces, b: Nonces, clock: int, now: int)
    requires Pruned(a, clock) == Pruned(b, clock) && clock <= now
    ensures Pruned(a, now) == Pruned(b, now)
  {
    forall n
      ensures n in Pruned(a, now) <==> n in Pruned(b, now)
      ensures n in Pruned(a, now) ==> a[n] == b[n]
    {
      if n in a && a[n] >= now {
        assert n in Pruned(a, clock) && Pruned(a, clock)[n] == Pruned(b, clock)[n];
      }
      if n in b && b[n] >= now {
        assert n in Pruned(b, clock) && Pruned(a, clock)[n] == Pruned(b, clock)[n];
      }
    }
  }

  lemma PrunedPut(a: Nonces, b: Nonces, now: int, nonce: string, expiresAt: int)
    requires Pruned(a, now) == Pruned(b, now)
    ensures Pruned(a[nonce := expiresAt], now) == Pruned(b[nonce := expiresAt], now)
    ensures Pruned(Pruned(a, now), now) == Pruned(b, now)
    ensures Pruned(Pruned(a, now)[nonce := expiresAt], now) == Pruned(b[nonce := expiresAt], now)
  {
    forall n
      ensures n in Pruned(a[nonce := expiresAt], now) <==> n in Pruned(b[nonce := expiresAt], now)
      ensures n != nonce && n in Pruned(a[nonce := expiresAt], now) ==> a[n] == b[n]
    {
      assert n in Pruned(a, now) <==> n in Pruned(b, now);
      assert n in Pruned(a, now) ==> Pruned(a, now)[n] == Pruned(b, now)[n];
    }
  }

  lemma ConsumeAgrees(m: Nonces, s: Stored, clock: int, nonce: string, expiresAt: int, now: int)
    requires Agree(m, s, clock) && clock <= now
    ensures var (m1, inMemory) := ConsumeFrom(m, nonce, expiresAt, now);
            var (s1, inFile) := ConsumeFile(s, nonce, expiresAt, now, Appended);
            inFile == (if inMemory then Accepted else Replayed) && Agree(m1, s1, now)
  {
    var (s1, _) := ConsumeFile(s, nonce, expiresAt, now, Appended);
    PrunedLater(m, Current(s), clock, now);
    PrunedLater(m, Loaded(s.file), clock, now);
    PrunedPut(m, Loaded(s.file), now, nonce, expiresAt);
    PrunedPut(Current(s), Loaded(s.file), now, nonce, expiresAt);
    var line := Line(nonce, expiresAt);
    assert (s.file + [line])[..|s.file|] == s.file;
    assert Loaded(s.file + [line]) == Loaded(s.file)[nonce := expiresAt];
  }

  /** Every append succeeds that is made: one for each nonce the memory store does not know. */
  predicate NoneFails(m: Nonces, steps: seq<Step>)
    decreases |steps|
  {
    if steps == [] then true
    else if steps[0].Restart? then NoneFails(m, steps[1..])
    else
      var c := steps[0];
      && (c.nonce in Pruned(m, c.now) || c.append == Appended)
      && NoneFails(ConsumeFrom(m, c.nonce, c.expiresAt, c.now).0, steps[1..])
  }

  /** A consume that makes no append, or one that succeeds, is answered alike; the first that fails is not. */
  lemma StepAgrees(m: Nonces, s: Stored, clock: int, c: Step)
    requires c.Consume? && Agree(m, s, clock) && clock <= c.now
    ensures var (m1, inMemory) := ConsumeFrom(m, c.nonce, c.expiresAt, c.now);
            var (s1, inFile) := StepFile(s, c);
            if c.nonce in Pruned(m, c.now) || c.append == Appended
            then (inFile == Accepted <==> inMemory) && Agree(m1, s1, c.now)
            else inFile == Unavailable && inMemory
  {
    PrunedLater(m, Current(s), clock, c.now);
    ConsumeAgrees(m, s, clock, c.nonce, c.expiresAt, c.now);
    assert c.nonce in Pruned(m, c.now) ==>
             StepFile(s, c) == ConsumeFile(s, c.nonce, c.expiresAt, c.now, Appended);
  }

  /** Across any restarts, and as long as the clock does not go back, the file store answers every
    * consume as one uninterrupted memory store if and only if no append fails. */
  lemma {:induction false} FileStoreIsMemoryStore(m: Nonces, s: Stored, clock: int, steps: seq<Step>, end: int)
    requires Agree(m, s, clock) && Timely(clock, steps, end)
    ensures FileAnswers(s, steps) == MemoryAnswers(m, steps) <==> NoneFails(m, steps)
    decreases |steps|
  {
    if steps != [] {
      var step, rest := steps[0], steps[1..];
      var s1 := StepFile(s, step).0;
      if step.Restart? {
        FileStoreIsMemoryStore(m, s1, clock, rest, end);
        assert FileAnswers(s, steps) == FileAnswers(s1, rest);
      } else {
        StepAgrees(m, s, clock, step);
        var (m1, inMemory) := ConsumeFrom(m, step.nonce, step.expiresAt, step.now);
        assert MemoryAnswers(m, steps)[0] == inMemory && MemoryAnswers(m, steps)[1..] == MemoryAnswers(m1, rest);
        assert FileAnswers(s, steps)[0] == (StepFile(s, step).1 == Accepted);
        assert FileAnswers(s, steps)[1..] == FileAnswers(s1, rest);
        if step.nonce in Pruned(m, step.now) || step.append == Appended {
          FileStoreIsMemoryStore(m1, s1, step.now, rest, end);
        }
      }
    }
  }

  lemma NewStoresAgree(clock: int)
    ensures Agree(map[], Stored(false, map[], []), clock)
  {
  }

  // ----- one consume -----

  /** A nonce is known until its expiry has passed. */
  predicate Known(m: Nonces, nonce: string, now: int) {
    nonce in m && m[nonce] >= now
  }

  /** The memory store accepts exactly a nonce it does not know, keeps it with its expiry, and forgets what has
    * expired, whatever it answers. */
  lemma ConsumeExactly(m: Nonces, nonce: string, expiresAt: int, now: int)
    ensures var (after, accepted) := ConsumeFrom(m, nonce, expiresAt, now);
            && (accepted <==> !Known(m, nonce, now))
            && (forall n :: n in after <==> Known(m, n, now) || n == nonce)
            && forall n | n in after :: after[n] == if n == nonce && accepted then expiresAt else m[n]
  {
  }

  /** A file yields the nonces of its lines, each with the expiry of its last line. */
  lemma {:induction false} LoadedExactly(lines: seq<Line>, nonce: string)
    ensures nonce in Loaded(lines) <==> exists i :: 0 <= i < |lines| && lines[i].nonce == nonce
    ensures forall i | 0 <= i < |lines| && lines[i].nonce == nonce
                       && (forall k | i < k < |lines| :: lines[k].nonce != nonce) ::
              Loaded(lines)[nonce] == lines[i].expiresAtMs
  {
    if lines != [] {
      var n := |lines| - 1;
      LoadedExactly(lines[..n], nonce);
      assert lines == lines[..n] + [lines[n]];
      if lines[n].nonce != nonce {
        forall i | 0 <= i < |lines| && lines[i].nonce == nonce
                   && (forall k | i < k < |lines| :: lines[k].nonce != nonce)
          ensures Loaded(lines)[nonce] == lines[i].expiresAtMs
        {
          assert lines[..n][i] == lines[i];
          assert forall k | i < k < n :: lines[..n][k] == lines[k];
        }
      }
    }
  }

  /** The file store knows what its process holds, and before its first call what the file holds. */
  lemma FileConsumeExactly(s: Stored, nonce: string, expiresAt: int, now: int, append: Append)
    requires !s.loaded ==> s.nonces == map[]
    ensures var before := if s.loaded then s.nonces else Loaded(s.file);
            var (after, answer) := ConsumeFile(s, nonce, expiresAt, now, append);
            && (answer == Replayed <==> Known(before, nonce, now))
            && (answer == Accepted <==> !Known(before, nonce, now) && append == Appended)
            && (answer == Unavailable <==> !Known(before, nonce, now) && append != Appended)
            && after.loaded
            && after.file == (if Known(before, nonce, now) || append == NotWritten then s.file
                              else s.file + [Line(nonce, expiresAt)])
            && (forall n :: n in after.nonces <==> Known(before, n, now) || (n == nonce && answer == Accepted))
            && forall n | n in after.nonces ::
                 after.nonces[n] == if n == nonce && answer == Accepted then expiresAt else before[n]
  {
    assert map[] + Loaded(s.file) == Loaded(s.file);
  }

  // ----- failed appends -----

  function FileAfter(s: Stored, steps: seq<Step>): Stored
    decreases |steps|
  {
    if steps == [] then s else FileAfter(StepFile(s, steps[0]).0, steps[1..])
  }

  /** A fresh process keeps no entries of its own. */
  predicate WellLoaded(s: Stored) {
    !s.loaded ==> s.nonces == map[]
  }

  /** The nonce is remembered up to `until`, by the process and by the file alone. */
  predicate Holds(s: Stored, nonce: string, until: int, clock: int) {
    && WellLoaded(s)
    && (clock <= until ==>
          && nonce in Current(s) && Current(s)[nonce] >= until
          && nonce in Loaded(s.file) && Loaded(s.file)[nonce] >= until)
  }

  function ClockAfter(clock: int, step: Step): int {
    if step.Consume? then step.now else clock
  }

  lemma StepHolds(s: Stored, step: Step, nonce: string, until: int, clock: int)
    requires Holds(s, nonce, until, clock) && clock <= ClockAfter(clock, step)
    ensures Holds(StepFile(s, step).0, nonce, until, ClockAfter(clock, step))
  {
    if step.Consume? {
      var line := Line(step.nonce, step.expiresAt);
      assert (s.file + [line])[..|s.file|] == s.file;
      assert Loaded(s.file + [line]) == Loaded(s.file)[step.nonce := step.expiresAt];
    }
  }

  lemma AcceptanceHolds(s: Stored, nonce: string, expiresAt: int, now: int)
    requires ConsumeFile(s, nonce, expiresAt, now, Appended).1 == Accepted
    ensures Holds(ConsumeFile(s, nonce, expiresAt, now, Appended).0, nonce, expiresAt, now)
  {
    assert (s.file + [Line(nonce, expiresAt)])[..|s.file|] == s.file;
  }

  lemma {:induction false} RunHolds(s: Stored, steps: seq<Step>, nonce: string, until: int, clock: int, end: int)
    requires Holds(s, nonce, until, clock) && Timely(clock, steps, end)
    ensures Holds(FileAfter(s, steps), nonce, until, end)
    decreases |steps|
  {
    if steps != [] {
      var s1, at := StepFile(s, steps[0]).0, ClockAfter(clock, steps[0]);
      StepHolds(s, steps[0], nonce, until, clock);
      RunHolds(s1, steps[1..], nonce, until, at, end);
    }
  }

  /** Whatever restarts and failed appends lie between, a nonce once accepted is refused until it
    * expires. */
  lemma FileNeverAcceptsTwice(
      s: Stored, nonce: string, expiresAt: int, now: int, between: seq<Step>, again: Step)
    requires ConsumeFile(s, nonce, expiresAt, now, Appended).1 == Accepted
    requires again.Consume? && again.nonce == nonce && again.now <= expiresAt && Timely(now, between, again.now)
    ensures StepFile(FileAfter(ConsumeFile(s, nonce, expiresAt, now, Appended).0, between), again).1 == Replayed
  {
    AcceptanceHolds(s, nonce, expiresAt, now);
    RunHolds(ConsumeFile(s, nonce, expiresAt, now, Appended).0, between, nonce, expiresAt, now, again.now);
  }

  /** A failed append errs on the safe side: a nonce never accepted can be refused after a restart. */
  lemma FailedAppendCanRefuse(nonce: string, expiresAt: int, now: int)
    requires now <= expiresAt
    ensures var (s1, answer) := ConsumeFile(Stored(false, map[], []), nonce, expiresAt, now, WrittenThenFailed);
            var restarted := StepFile(s1, Restart).0;
            answer == Unavailable && ConsumeFile(restarted, nonce, expiresAt, now, Appended).1 == Replayed
  {
    var line := Line(nonce, expiresAt);
    assert ([] + [line])[..0] == [];
    assert Loaded([] + [line]) == map[nonce := expiresAt];
  }

  // ----- replays -----

  /** A signed request as it arrives: its own time stamp, the time of arrival, and whether the signature
    * is good. */
  datatype Request = Request(nonce: string, timestamp: int, now: int, signed: bool)

  function Abs(x: int): nat {
    if x < 0 then -x else x
  }

  predicate InWindow(r: Request) {
    r.signed && Abs(r.now - r.timestamp) <= ACCEPTANCE_WINDOW_MS
  }

  function Accept(m: Nonces, r: Request): (Nonces, bool) {
    if !InWindow(r) then (m, false) else ConsumeFrom(m, r.nonce, r.now + ACCEPTANCE_WINDOW_MS, r.now)
  }

  /** A request is accepted exactly when its signature is good, its time stamp lies within sixty seconds of its
    * arrival on either side, and its nonce is not known; the nonce is then known for sixty seconds more. */
  lemma AcceptExactly(m: Nonces, r: Request)
    ensures var (after, accepted) := Accept(m, r);
            && (accepted <==>
                  r.signed && r.now - 60_000 <= r.timestamp <= r.now + 60_000 && !Known(m, r.nonce, r.now))
            && (accepted ==> r.nonce in after && after[r.nonce] == r.now + 60_000)
            && (forall n | n != r.nonce :: Known(after, n, r.now) <==> Known(m, n, r.now))
            && (forall n | n != r.nonce && Known(m, n, r.now) :: after[n] == m[n])
  {
    ConsumeExactly(m, r.nonce, r.now + ACCEPTANCE_WINDOW_MS, r.now);
  }

  function After(m: Nonces, rs: seq<Request>): Nonces
    decreases |rs|
  {
    if rs == [] then m else After(Accept(m, rs[0]).0, rs[1..])
  }

  /** The requests arrive between two times, with a clock that does not go back. */
  predicate InOrder(clock: int, rs: seq<Request>, end: int)
    decreases |rs|
  {
    if rs == [] then clock <= end else clock <= rs[0].now && InOrder(rs[0].now, rs[1..], end)
  }

  /** The store still knows an acceptance at `at`, if its window has not ended. */
  predicate Remembers(m: Nonces, nonce: string, at: int, clock: int) {
    at + ACCEPTANCE_WINDOW_MS >= clock ==> nonce in m && m[nonce] >= at + ACCEPTANCE_WINDOW_MS
  }

  lemma AcceptRemembers(m: Nonces, r: Request, nonce: string, at: int, clock: int)
    requires Remembers(m, nonce, at, clock) && clock <= r.now && at <= clock
    ensures Remembers(Accept(m, r).0, nonce, at, r.now)
  {
  }

  lemma {:induction false} RunRemembers(m: Nonces, rs: seq<Request>, nonce: string, at: int, clock: int, now: int)
    requires Remembers(m, nonce, at, clock) && at <= clock && InOrder(clock, rs, now)
    ensures Remembers(After(m, rs), nonce, at, now)
    decreases |rs|
  {
    if rs != [] {
      AcceptRemembers(m, rs[0], nonce, at, clock);
      RunRemembers(Accept(m, rs[0]).0, rs[1..], nonce, at, rs[0].now, now);
    }
  }

  /** After an acceptance, and whatever arrives in between, the same nonce is accepted again only when
    * the acceptance window after the first has ended. A request whose time stamp is not later than its
    * first acceptance is never accepted twice. */
  lemma NeverAcceptedTwice(m: Nonces, first: Request, between: seq<Request>, again: Request)
    requires Accept(m, first).1 && again.nonce == first.nonce
    requires InOrder(first.now, between, again.now)
    ensures var m1 := After(Accept(m, first).0, between);
            && (Accept(m1, again).1 ==> again.now > first.now + 60_000)
            && (again.timestamp <= first.now ==> !Accept(m1, again).1)
  {
    var m0 := Accept(m, first).0;
    RunRemembers(m0, between, first.nonce, first.now, first.now, again.now);
  }

  predicate Absent(nonce: string, rs: seq<Request>) {
    forall r <- rs :: r.nonce != nonce
  }

  lemma {:induction false} OthersDoNotAdd(m: Nonces, rs: seq<Request>, nonce: string)
    requires Absent(nonce, rs)
    ensures nonce in After(m, rs) ==> nonce in m && After(m, rs)[nonce] == m[nonce]
    decreases |rs|
  {
    if rs != [] {
      assert rs[0] in rs;
      OthersDoNotAdd(Accept(m, rs[0]).0, rs[1..], nonce);
    }
  }

  /** The exact answer to the same request seen again, when no other request used its nonce: it is
    * accepted if and only if it is still in its own window and the first acceptance window has ended.
    * That can only be a request dated after its first acceptance. */
  lemma ReplayExactly(m: Nonces, first: Request, between: seq<Request>, again: Request)
    requires Accept(m, first).1 && again == first.(now := again.now) && Absent(first.nonce, between)
    requires InOrder(first.now, between, again.now)
    ensures Accept(After(Accept(m, first).0, between), again).1 <==>
              again.now <= again.timestamp + 60_000 && again.now > first.now + 60_000
  {
    NeverAcceptedTwice(m, first, between, again);
    OthersDoNotAdd(Accept(m, first).0, between, first.nonce);
  }

  /** So a request dated ahead of its first acceptance can be accepted again. */
  lemma AheadOfClockReplays(first: Request)
    requires first.signed && first.timestamp == first.now + 60_000
    ensures var again := first.(now := first.now + 60_001);
            Accept(map[], first).1 && Accept(Accept(map[], first).0, again).1
  {
  }
}
