/**
Saving a table to disk: write a temporary file, then rename it over the real one.
The class is one save, the state machine is many of them at once, with the
temporary file that they all share.
*/
module Persist {
  import opened Text

  type Bytes = seq<bv8>

  // ---- one save ----

  /** Where a save goes wrong, if it does: a failed write leaves some of its bytes behind. */
  datatype Fault = NoFault | Serialize | Open | Write(written: nat) | RenameFault

  class FileStore {
    var tmp: Option<Bytes>
    var file: Option<Bytes>

    constructor (file: Option<Bytes>)
      ensures this.file == file && tmp == None
    {
      this.file, tmp := file, None;
    }

    /** All or nothing: the file is the new content and the temporary file is gone, or the file is as it was. */
    method AtomicSave(data: Bytes, fault: Fault) returns (ok: bool)
      modifies this
      ensures ok <==> fault.NoFault? || (fault.Write? && fault.written >= |data|)
      ensures if ok then file == Some(data) && tmp == None else file == old(file)
    {
      if fault.Serialize? || fault.Open? {
        return false;
      }
      tmp := Some([]);
      for i := 0 to |data|
        invariant tmp == Some(data[..i]) && file == old(file)
        invariant fault.Write? ==> i <= fault.written
      {
        if fault.Write? && i == fault.written {
          return false;
        }
        tmp := Some(tmp.value + [data[i]]);
        assert data[..i + 1] == data[..i] + [data[i]];
      }
      assert data[..|data|] == data;
      if fault.RenameFault? {
        return false;
      }
      file, tmp := tmp, None;
      ok := true;
    }
  }

  // ---- many saves ----

  /**
  How far a call of `persist` has come; `start` is the table's version when it was
  made. A call that is dropped while it waits for its write `stops` after it: the
  write goes on in the background, and nobody renames.
  */
  datatype Phase =
    | Queued(start: nat)
    | Locked(start: nat)
    | Snapped(start: nat, version: nat, stops: bool)
    | Writing(start: nat, version: nat, inode: nat, written: nat, stops: bool)
    | Finished(start: nat, ok: bool)

  /**
  All versions of the table, the last one current; the contents of all files there
  ever were, and which of them the two names stand for; and the version that the
  real one was last renamed to, or -1.
  */
  datatype State<T> = State(versions: seq<T>, lock: Option<nat>, phases: map<nat, Phase>,
                            inodes: seq<Bytes>, tmp: Option<nat>, file: Option<nat>, fileVersion: int)

  datatype Event<T> =
    | Update(table: T)
    | Call(p: nat)
    | Acquire(p: nat)
    | Snapshot(p: nat)
    | OpenTmp(p: nat)
    | WriteSome(p: nat, count: nat)
    | Rename(p: nat)
    | Fail(p: nat)
    | Abandon(p: nat)
    | Crash(table: T)

  /** What a call leaves of the lock when it ends or is dropped. */
  function Released(lock: Option<nat>, p: nat): Option<nat> {
    if lock == Some(p) then None else lock
  }

  function Zeros(n: nat): (r: Bytes)
    ensures |r| == n
  {
    seq(n, _ => 0)
  }

  /** A write at a position, over what is there; a hole before it reads as zeros. */
  function WriteAt(content: Bytes, at: nat, bytes: Bytes): Bytes {
    var base := if |content| < at then content + Zeros(at - |content|) else content;
    base[..at] + bytes + (if |base| > at + |bytes| then base[at + |bytes|..] else [])
  }

  /** Byte by byte: what is written, around it what was there, and zeros where nothing was. */
  lemma WrittenBytes(content: Bytes, at: nat, bytes: Bytes)
    ensures var r := WriteAt(content, at, bytes); var n := |bytes|;
            && |r| == (if |content| < at + n then at + n else |content|)
            && forall i :: 0 <= i < |r| ==>
                 r[i] == if at <= i < at + n then bytes[i - at] else if i < |content| then content[i] else 0
  {
  }

  /** What an event does; one that is not possible does nothing. With `locking` off, nobody waits for the lock. */
  function Next<T>(ser: T -> Bytes, locking: bool, s: State<T>, e: Event<T>): State<T>
    requires s.versions != []
  {
    match e
    case Update(t) => s.(versions := s.versions + [t])
    case Crash(t) => s.(versions := s.versions + [t], lock := None, phases := map[])
    case Call(p) =>
      if p in s.phases && !s.phases[p].Finished? then s
      else s.(phases := s.phases[p := Queued(|s.versions| - 1)])
    case _ => if e.p in s.phases then Advance(ser, locking, s, e, s.phases[e.p]) else s
  }

  function Advance<T>(ser: T -> Bytes, locking: bool, s: State<T>, e: Event<T>, ph: Phase): State<T>
    requires s.versions != [] && !e.Update? && !e.Crash?
  {
    match (e, ph)
    case (Acquire(p), Queued(start)) =>
      if locking && s.lock.Some? then s
      else s.(lock := Some(p), phases := s.phases[p := Locked(start)])
    case (Snapshot(p), Locked(start)) =>
      s.(phases := s.phases[p := Snapped(start, |s.versions| - 1, false)])
    case (OpenTmp(p), Snapped(start, v, stops)) =>
      // opening empties the file that the temporary name stands for, or creates one
      if s.tmp.Some? && s.tmp.value < |s.inodes| then
        s.(inodes := s.inodes[s.tmp.value := []], phases := s.phases[p := Writing(start, v, s.tmp.value, 0, stops)])
      else
        s.(inodes := s.inodes + [[]], tmp := Some(|s.inodes|),
           phases := s.phases[p := Writing(start, v, |s.inodes|, 0, stops)])
    case (WriteSome(p, count), Writing(start, v, n, written, stops)) =>
      if v < |s.versions| && n < |s.inodes| && written + count <= |ser(s.versions[v])| then
        var content := WriteAt(s.inodes[n], written, ser(s.versions[v])[written..written + count]);
        s.(inodes := s.inodes[n := content], phases := s.phases[p := Writing(start, v, n, written + count, stops)])
      else s
    case (Rename(p), Writing(start, v, _, written, stops)) =>
      if stops || v >= |s.versions| || written != |ser(s.versions[v])| then s
      else if s.tmp.None? then s.(lock := Released(s.lock, p), phases := s.phases[p := Finished(start, false)])
      else s.(file := s.tmp, tmp := None, fileVersion := v, lock := Released(s.lock, p),
              phases := s.phases[p := Finished(start, true)])
    case (Fail(p), Snapped(start, _, _)) => s.(lock := Released(s.lock, p), phases := s.phases[p := Finished(start, false)])
    case (Fail(p), Writing(start, _, _, _, _)) =>
      s.(lock := Released(s.lock, p), phases := s.phases[p := Finished(start, false)])
    case (Abandon(p), Snapped(start, v, _)) =>
      s.(lock := Released(s.lock, p), phases := s.phases[p := Snapped(start, v, true)])
    case (Abandon(p), Writing(start, v, n, written, stops)) =>
      // with everything written the rename may have begun, and then it takes place
      var unwritten := v < |s.versions| && written < |ser(s.versions[v])|;
      s.(lock := Released(s.lock, p), phases := s.phases[p := Writing(start, v, n, written, stops || unwritten)])
    case (Abandon(p), Finished(_, _)) => s
    case (Abandon(p), _) => s.(lock := Released(s.lock, p), phases := s.phases - {p})
    case _ => s
  }

  function Run<T>(ser: T -> Bytes, locking: bool, s: State<T>, events: seq<Event<T>>): (r: State<T>)
    requires s.versions != []
    ensures |r.versions| >= |s.versions|
  {
    if events == [] then s
    else Next(ser, locking, Run(ser, locking, s, events[..|events| - 1]), events[|events| - 1])
  }

  function Start<T>(table: T, file: Option<Bytes>): State<T> {
    State([table], None, map[], if file.Some? then [file.value] else [], None, if file.Some? then Some(0) else None, -1)
  }

  function StateAt<T>(ser: T -> Bytes, table: T, file: Option<Bytes>, events: seq<Event<T>>, i: nat): State<T>
    requires i <= |events|
  {
    Run(ser, true, Start(table, file), events[..i])
  }

  // ---- the invariant ----

  function FileBytes<T>(s: State<T>): Option<Bytes> {
    if s.file.Some? && s.file.value < |s.inodes| then Some(s.inodes[s.file.value]) else None
  }

  /** The file is what it was at first, or a complete snapshot of one version of the table. */
  ghost predicate FileIsWhole<T(!new)>(ser: T -> Bytes, first: Option<Bytes>, s: State<T>) {
    if s.fileVersion < 0 then FileBytes(s) == first
    else s.fileVersion < |s.versions| && FileBytes(s) == Some(ser(s.versions[s.fileVersion]))
  }

  /** The two names stand for different files, of those there are. */
  predicate NamesOk<T>(s: State<T>) {
    && (s.tmp.Some? ==> s.tmp.value < |s.inodes| && s.tmp != s.file)
    && (s.file.Some? ==> s.file.value < |s.inodes|)
  }

  /** A call in the middle of writing has the temporary file to itself. */
  ghost predicate WriteOk<T(!new)>(ser: T -> Bytes, s: State<T>, ph: Phase) {
    match ph
    case Snapped(_, v, _) => v < |s.versions|
    case Writing(_, v, n, written, _) =>
      && v < |s.versions| && written <= |ser(s.versions[v])|
      && s.tmp == Some(n) && n < |s.inodes| && s.inodes[n] == ser(s.versions[v])[..written]
    case _ => true
  }

  /** What needs no lock, as long as at most one call is writing: the file is whole, and so will be the next. */
  ghost predicate DataInv<T(!new)>(ser: T -> Bytes, first: Option<Bytes>, s: State<T>) {
    && s.versions != [] && NamesOk(s) && FileIsWhole(ser, first, s)
    && (forall p :: p in s.phases ==> WriteOk(ser, s, s.phases[p]))
    && forall p, q :: p in s.phases && q in s.phases && s.phases[p].Writing? && s.phases[q].Writing? ==> p == q
  }

  /** Nobody opens the temporary file while another is between opening it and renaming it. */
  ghost predicate OpensAlone<T(!new)>(s: State<T>, e: Event<T>) {
    e.OpenTmp? && e.p in s.phases && s.phases[e.p].Snapped? ==>
      forall p :: p in s.phases ==> !s.phases[p].Writing?
  }

  /** Writing on extends the prefix, up to the whole. */
  lemma Appends<T(!new)>(ser: T -> Bytes, s: State<T>, e: Event<T>, ph: Phase)
    requires ph.Writing? && WriteOk(ser, s, ph)
    ensures var data := ser(s.versions[ph.version]);
            && (ph.written == |data| ==> s.inodes[ph.inode] == data)
            && (e.WriteSome? && ph.written + e.count <= |data| ==>
                  WriteAt(s.inodes[ph.inode], ph.written, data[ph.written..ph.written + e.count])
                  == data[..ph.written + e.count])
  {
  }

  lemma WriteKeepsData<T(!new)>(ser: T -> Bytes, first: Option<Bytes>, locking: bool, s: State<T>, e: Event<T>)
    requires DataInv(ser, first, s) && e.WriteSome? && e.p in s.phases && s.phases[e.p].Writing?
    ensures DataInv(ser, first, Next(ser, locking, s, e))
  {
    Appends(ser, s, e, s.phases[e.p]);
    hide WriteAt;
  }

  lemma RenameKeepsData<T(!new)>(ser: T -> Bytes, first: Option<Bytes>, locking: bool, s: State<T>, e: Event<T>)
    requires DataInv(ser, first, s) && e.Rename? && e.p in s.phases && s.phases[e.p].Writing?
    ensures DataInv(ser, first, Next(ser, locking, s, e))
  {
    Appends(ser, s, e, s.phases[e.p]);
    hide WriteAt;
  }

  lemma OpenKeepsData<T(!new)>(ser: T -> Bytes, first: Option<Bytes>, locking: bool, s: State<T>, e: Event<T>)
    requires DataInv(ser, first, s) && OpensAlone(s, e) && e.OpenTmp? && e.p in s.phases && s.phases[e.p].Snapped?
    ensures DataInv(ser, first, Next(ser, locking, s, e))
  {
    hide WriteAt;
  }

  lemma CallKeepsData<T(!new)>(ser: T -> Bytes, first: Option<Bytes>, locking: bool, s: State<T>, e: Event<T>)
    requires DataInv(ser, first, s) && (e.Update? || e.Crash? || e.Call?)
    ensures DataInv(ser, first, Next(ser, locking, s, e))
  {
    hide WriteAt;
  }

  lemma WaitKeepsData<T(!new)>(ser: T -> Bytes, first: Option<Bytes>, locking: bool, s: State<T>, e: Event<T>)
    requires DataInv(ser, first, s) && (e.Acquire? || e.Snapshot?)
    ensures DataInv(ser, first, Next(ser, locking, s, e))
  {
    hide WriteAt;
  }

  lemma FailKeepsData<T(!new)>(ser: T -> Bytes, first: Option<Bytes>, locking: bool, s: State<T>, e: Event<T>)
    requires DataInv(ser, first, s) && e.Fail?
    ensures DataInv(ser, first, Next(ser, locking, s, e))
  {
    hide WriteAt;
  }

  lemma AbandonKeepsData<T(!new)>(ser: T -> Bytes, first: Option<Bytes>, locking: bool, s: State<T>, e: Event<T>)
    requires DataInv(ser, first, s) && e.Abandon?
    ensures DataInv(ser, first, Next(ser, locking, s, e))
  {
    hide WriteAt;
  }

  /** Whether there is a lock or not. */
  lemma NextKeepsData<T(!new)>(ser: T -> Bytes, first: Option<Bytes>, locking: bool, s: State<T>, e: Event<T>)
    requires DataInv(ser, first, s) && OpensAlone(s, e)
    ensures DataInv(ser, first, Next(ser, locking, s, e))
  {
    if e.Update? || e.Crash? || e.Call? {
      CallKeepsData(ser, first, locking, s, e);
    } else if e.Acquire? || e.Snapshot? {
      WaitKeepsData(ser, first, locking, s, e);
    } else if e.Fail? {
      FailKeepsData(ser, first, locking, s, e);
    } else if e.Abandon? {
      AbandonKeepsData(ser, first, locking, s, e);
    } else if e.WriteSome? && e.p in s.phases && s.phases[e.p].Writing? {
      WriteKeepsData(ser, first, locking, s, e);
    } else if e.Rename? && e.p in s.phases && s.phases[e.p].Writing? {
      RenameKeepsData(ser, first, locking, s, e);
    } else if e.OpenTmp? && e.p in s.phases && s.phases[e.p].Snapped? {
      OpenKeepsData(ser, first, locking, s, e);
    } else {
      assert Next(ser, locking, s, e) == s;
    }
  }

  /** A save that may still rename. */
  predicate Goes(ph: Phase) {
    (ph.Snapped? || ph.Writing?) && !ph.stops
  }

  /** What the lock adds: up to the opening it is held, unless the call was dropped, and no save is older than the file. */
  ghost predicate PhaseOk<T(!new)>(s: State<T>, p: nat)
    requires p in s.phases
  {
    var ph := s.phases[p];
    && ph.start < |s.versions|
    && (ph.Locked? || (ph.Snapped? && !ph.stops) ==> s.lock == Some(p))
    && (Goes(ph) ==> ph.start <= ph.version && s.fileVersion <= ph.version < |s.versions|)
    && (ph.Finished? && ph.ok ==> ph.start <= s.fileVersion)
  }

  /** Who has opened has the older snapshot. */
  ghost predicate InTurn<T(!new)>(s: State<T>) {
    forall p, q :: p in s.phases && q in s.phases ==> Before(s.phases[p], s.phases[q])
  }

  predicate Before(ph: Phase, ph': Phase) {
    Goes(ph) && Goes(ph') && ph.Writing? && ph'.Snapped? ==> ph.version <= ph'.version
  }

  ghost predicate LockInv<T(!new)>(s: State<T>) {
    && s.versions != [] && s.fileVersion < |s.versions| && InTurn(s)
    && forall p :: p in s.phases ==> PhaseOk(s, p)
  }

  ghost predicate Inv<T(!new)>(ser: T -> Bytes, first: Option<Bytes>, s: State<T>) {
    DataInv(ser, first, s) && LockInv(s)
  }

  /** Only one call is writing. */
  ghost predicate OneWrites<T(!new)>(s: State<T>) {
    forall p, q :: p in s.phases && q in s.phases && s.phases[p].Writing? && s.phases[q].Writing? ==> p == q
  }

  /** An event of one call leaves the phases of the others alone. */
  lemma OthersStay<T(!new)>(ser: T -> Bytes, s: State<T>, e: Event<T>, q: nat)
    requires s.versions != [] && !e.Update? && !e.Crash? && !e.Call? && q != e.p
    ensures var s' := Next(ser, true, s, e);
            s'.versions == s.versions && (q in s'.phases <==> q in s.phases) && (q in s.phases ==> s'.phases[q] == s.phases[q])
  {
    hide WriteAt;
  }

  /** What the event makes of its own call, and of the lock. */
  lemma OwnPhaseOk<T(!new)>(ser: T -> Bytes, s: State<T>, e: Event<T>)
    requires LockInv(s) && !e.Update? && !e.Crash? && !e.Call? && e.p in s.phases
    ensures var s' := Next(ser, true, s, e);
            && (e.p in s'.phases ==> PhaseOk(s', e.p))
            && (s'.lock == s.lock || s'.lock == Released(s.lock, e.p) || (s.lock == None && s'.lock == Some(e.p)))
            && (s'.fileVersion == s.fileVersion
                || (Goes(s.phases[e.p]) && s.phases[e.p].Writing? && s'.fileVersion == s.phases[e.p].version))
  {
    hide WriteAt;
    assert PhaseOk(s, e.p);
  }

  lemma OtherPhaseOk<T(!new)>(ser: T -> Bytes, s: State<T>, e: Event<T>, q: nat)
    requires LockInv(s) && OneWrites(s) && !e.Update? && !e.Crash? && !e.Call? && e.p in s.phases
    requires q in s.phases && q != e.p
    ensures q in Next(ser, true, s, e).phases && PhaseOk(Next(ser, true, s, e), q)
  {
    OthersStay(ser, s, e, q);
    OwnPhaseOk(ser, s, e);
    assert PhaseOk(s, q) && PhaseOk(s, e.p);
    assert Before(s.phases[e.p], s.phases[q]);
    hide Next;
  }

  /** How a call's phase changes while it stays able to rename. */
  lemma OwnPhase<T(!new)>(ser: T -> Bytes, s: State<T>, e: Event<T>)
    requires s.versions != [] && !e.Update? && !e.Crash? && !e.Call? && e.p in s.phases
    ensures var s' := Next(ser, true, s, e); var ph := s.phases[e.p];
            e.p in s'.phases && Goes(s'.phases[e.p]) ==>
              || (ph.Locked? && s'.phases[e.p].Snapped? && s'.phases[e.p].version == |s.versions| - 1)
              || (Goes(ph) && s'.phases[e.p].version == ph.version && (ph.Writing? ==> s'.phases[e.p].Writing?))
  {
    hide WriteAt;
  }

  lemma StaysBefore<T(!new)>(ser: T -> Bytes, s: State<T>, e: Event<T>, p: nat, q: nat)
    requires LockInv(s) && !e.Update? && !e.Crash? && !e.Call? && e.p in s.phases
    requires var s' := Next(ser, true, s, e); p in s'.phases && q in s'.phases
    ensures var s' := Next(ser, true, s, e); Before(s'.phases[p], s'.phases[q])
  {
    OwnPhase(ser, s, e);
    if p != e.p { OthersStay(ser, s, e, p); }
    if q != e.p { OthersStay(ser, s, e, q); }
    assert PhaseOk(s, e.p);
    assert p in s.phases ==> PhaseOk(s, p);
    assert q in s.phases ==> PhaseOk(s, q);
    assert p in s.phases && q in s.phases ==> Before(s.phases[p], s.phases[q]);
    hide Next;
  }

  lemma AdvanceKeepsLock<T(!new)>(ser: T -> Bytes, s: State<T>, e: Event<T>)
    requires LockInv(s) && OneWrites(s) && !e.Update? && !e.Crash? && !e.Call? && e.p in s.phases
    ensures LockInv(Next(ser, true, s, e)) && Next(ser, true, s, e).fileVersion >= s.fileVersion
    ensures Next(ser, true, s, e).versions == s.versions
  {
    var s' := Next(ser, true, s, e);
    OwnPhaseOk(ser, s, e);
    assert PhaseOk(s, e.p);
    OthersStay(ser, s, e, e.p + 1);
    forall q | q in s'.phases ensures PhaseOk(s', q) {
      if q != e.p {
        OthersStay(ser, s, e, q);
        OtherPhaseOk(ser, s, e, q);
      }
    }
    forall p, q | p in s'.phases && q in s'.phases ensures Before(s'.phases[p], s'.phases[q]) {
      StaysBefore(ser, s, e, p, q);
    }
    hide Next;
  }

  lemma NextKeepsInv<T(!new)>(ser: T -> Bytes, first: Option<Bytes>, s: State<T>, e: Event<T>)
    requires Inv(ser, first, s) && OpensAlone(s, e)
    ensures Inv(ser, first, Next(ser, true, s, e)) && Next(ser, true, s, e).fileVersion >= s.fileVersion
    ensures s.versions <= Next(ser, true, s, e).versions
  {
    var s' := Next(ser, true, s, e);
    NextKeepsData(ser, first, true, s, e);
    assert OneWrites(s);
    hide DataInv, WriteAt;
    if e.Update? || e.Crash? || e.Call? {
      forall q | q in s'.phases ensures PhaseOk(s', q) {
        assert q in s.phases ==> PhaseOk(s, q);
      }
    } else if e.p in s.phases {
      AdvanceKeepsLock(ser, s, e);
    }
  }

  /** Before each of the first `i` events, whoever opens the temporary file is alone. */
  ghost predicate AllAlone<T(!new)>(ser: T -> Bytes, table: T, file: Option<Bytes>, events: seq<Event<T>>, i: nat)
    requires i <= |events|
  {
    forall k :: 0 <= k < i ==> OpensAlone(StateAt(ser, table, file, events, k), events[k])
  }

  lemma {:induction false} RunKeepsInv<T(!new)>(ser: T -> Bytes, table: T, file: Option<Bytes>, events: seq<Event<T>>, i: nat)
    requires i <= |events| && AllAlone(ser, table, file, events, i)
    ensures Inv(ser, file, StateAt(ser, table, file, events, i))
  {
    if i == 0 {
    } else {
      assert events[..i][..i - 1] == events[..i - 1];
      RunKeepsInv(ser, table, file, events, i - 1);
      NextKeepsInv(ser, file, StateAt(ser, table, file, events, i - 1), events[i - 1]);
    }
  }

  // ---- no call dropped during its write ----

  /** The lock is held from the snapshot to the rename. */
  ghost predicate Held<T(!new)>(s: State<T>) {
    forall p :: p in s.phases && (s.phases[p].Locked? || s.phases[p].Snapped? || s.phases[p].Writing?) ==> s.lock == Some(p)
  }

  predicate DropsWrite<T>(s: State<T>, e: Event<T>) {
    e.Abandon? && e.p in s.phases && (s.phases[e.p].Snapped? || s.phases[e.p].Writing?)
  }

  lemma NextKeepsHeld<T(!new)>(ser: T -> Bytes, s: State<T>, e: Event<T>)
    requires s.versions != [] && Held(s) && !DropsWrite(s, e)
    ensures Held(Next(ser, true, s, e)) && OpensAlone(s, e)
  {
    hide WriteAt;
  }

  lemma {:induction false} RunIsHeld<T(!new)>(ser: T -> Bytes, table: T, file: Option<Bytes>, events: seq<Event<T>>, i: nat)
    requires i <= |events|
    requires forall k :: 0 <= k < i ==> !DropsWrite(StateAt(ser, table, file, events, k), events[k])
    ensures Held(StateAt(ser, table, file, events, i))
  {
    if i == 0 {
    } else {
      assert events[..i][..i - 1] == events[..i - 1];
      RunIsHeld(ser, table, file, events, i - 1);
      NextKeepsHeld(ser, StateAt(ser, table, file, events, i - 1), events[i - 1]);
    }
  }

  /** Then whoever opens the temporary file is alone. */
  lemma LockedIsAlone<T(!new)>(ser: T -> Bytes, table: T, file: Option<Bytes>, events: seq<Event<T>>, i: nat)
    requires i <= |events|
    requires forall k :: 0 <= k < i ==> !DropsWrite(StateAt(ser, table, file, events, k), events[k])
    ensures AllAlone(ser, table, file, events, i)
  {
    forall k | 0 <= k < i ensures OpensAlone(StateAt(ser, table, file, events, k), events[k]) {
      RunIsHeld(ser, table, file, events, k);
      NextKeepsHeld(ser, StateAt(ser, table, file, events, k), events[k]);
    }
  }

  // ---- what holds in every run ----

  /**
  At every moment the file holds one complete version of the table, and never an older
  one than before, as long as nobody opens the temporary file while another writes it.
  */
  lemma {:induction false} FileNeverTornNorOlder<T(!new)>(ser: T -> Bytes, table: T, file: Option<Bytes>,
                                                           events: seq<Event<T>>, i: nat, j: nat)
    requires i <= j <= |events| && AllAlone(ser, table, file, events, j)
    ensures FileIsWhole(ser, file, StateAt(ser, table, file, events, j))
    ensures StateAt(ser, table, file, events, i).fileVersion <= StateAt(ser, table, file, events, j).fileVersion
    ensures StateAt(ser, table, file, events, i).versions <= StateAt(ser, table, file, events, j).versions
    decreases j
  {
    RunKeepsInv(ser, table, file, events, j);
    if i == j {
    } else {
      FileNeverTornNorOlder(ser, table, file, events, i, j - 1);
      assert events[..j][..j - 1] == events[..j - 1];
      RunKeepsInv(ser, table, file, events, j - 1);
      NextKeepsInv(ser, file, StateAt(ser, table, file, events, j - 1), events[j - 1]);
    }
  }

  /** A reader, such as the next start of the process, gets a table that once was current. */
  lemma ReaderSeesSomeVersion<T(!new)>(ser: T -> Bytes, parse: Bytes -> Option<T>, table: T, file: Option<Bytes>,
                                       events: seq<Event<T>>, i: nat)
    requires i <= |events| && AllAlone(ser, table, file, events, i) && forall t: T :: parse(ser(t)) == Some(t)
    ensures var s := StateAt(ser, table, file, events, i);
            if s.fileVersion < 0 then FileBytes(s) == file
            else FileBytes(s).Some? && parse(FileBytes(s).value).Some? && parse(FileBytes(s).value).value in s.versions
  {
    FileNeverTornNorOlder(ser, table, file, events, i, i);
  }

  lemma StateStep<T(!new)>(ser: T -> Bytes, table: T, file: Option<Bytes>, events: seq<Event<T>>, k: nat)
    requires 0 < k <= |events|
    ensures StateAt(ser, table, file, events, k) == Next(ser, true, StateAt(ser, table, file, events, k - 1), events[k - 1])
  {
    assert events[..k][..k - 1] == events[..k - 1];
    hide Next;
  }

  lemma CallQueues<T(!new)>(ser: T -> Bytes, s: State<T>, p: nat)
    requires s.versions != [] && (p in s.phases ==> s.phases[p].Finished?)
    ensures p in Next(ser, true, s, Call(p)).phases && Next(ser, true, s, Call(p)).phases[p].start == |s.versions| - 1
  {
  }

  /** The call keeps the version it was made at until it is made anew. */
  lemma {:induction false} StartIsKept<T(!new)>(ser: T -> Bytes, table: T, file: Option<Bytes>,
                                                 events: seq<Event<T>>, c: nat, k: nat, p: nat)
    requires c < k <= |events| && events[c] == Call(p)
    requires var s := StateAt(ser, table, file, events, c); p in s.phases ==> s.phases[p].Finished?
    requires forall m :: c < m < k ==> events[m] != Call(p) && events[m] != Abandon(p) && !events[m].Crash?
    ensures var s := StateAt(ser, table, file, events, k);
            p in s.phases && s.phases[p].start == |StateAt(ser, table, file, events, c).versions| - 1
    decreases k
  {
    StateStep(ser, table, file, events, k);
    hide Next;
    if k == c + 1 {
      CallQueues(ser, StateAt(ser, table, file, events, c), p);
    } else {
      StartIsKept(ser, table, file, events, c, k - 1, p);
      NextKeepsStart(ser, StateAt(ser, table, file, events, k - 1), events[k - 1], p);
    }
    hide *;
  }

  lemma NextKeepsStart<T(!new)>(ser: T -> Bytes, s: State<T>, e: Event<T>, p: nat)
    requires s.versions != [] && p in s.phases && e != Call(p) && e != Abandon(p) && !e.Crash?
    ensures p in Next(ser, true, s, e).phases && Next(ser, true, s, e).phases[p].start == s.phases[p].start
  {
  }

  /** A call of `persist` whose save succeeds leaves a version at least as new as the table was when it was made. */
  lemma SuccessIsFresh<T(!new)>(ser: T -> Bytes, table: T, file: Option<Bytes>,
                                events: seq<Event<T>>, c: nat, k: nat, p: nat)
    requires c < k <= |events| && events[c] == Call(p) && AllAlone(ser, table, file, events, k)
    requires var s := StateAt(ser, table, file, events, c); p in s.phases ==> s.phases[p].Finished?
    requires forall m :: c < m < k ==> events[m] != Call(p) && events[m] != Abandon(p) && !events[m].Crash?
    requires var s := StateAt(ser, table, file, events, k); p in s.phases && s.phases[p].Finished? && s.phases[p].ok
    ensures var s := StateAt(ser, table, file, events, k);
            && |StateAt(ser, table, file, events, c).versions| - 1 <= s.fileVersion < |s.versions|
            && FileBytes(s) == Some(ser(s.versions[s.fileVersion]))
  {
    StartIsKept(ser, table, file, events, c, k, p);
    RunKeepsInv(ser, table, file, events, k);
    assert PhaseOk(StateAt(ser, table, file, events, k), p);
  }

  /** Whoever has the lock is in the middle of a save. */
  ghost predicate HolderSaves<T(!new)>(s: State<T>) {
    s.lock.Some? ==>
      var p := s.lock.value;
      p in s.phases && (s.phases[p].Locked? || s.phases[p].Snapped? || s.phases[p].Writing?)
  }

  lemma NextKeepsHolder<T(!new)>(ser: T -> Bytes, s: State<T>, e: Event<T>)
    requires s.versions != [] && HolderSaves(s)
    ensures HolderSaves(Next(ser, true, s, e))
  {
    hide WriteAt;
  }

  /** So in every run the lock is free again when no call is between taking it and its end. */
  lemma {:induction false} LockIsReleased<T(!new)>(ser: T -> Bytes, table: T, file: Option<Bytes>, events: seq<Event<T>>, i: nat)
    requires i <= |events|
    ensures HolderSaves(StateAt(ser, table, file, events, i))
  {
    if i == 0 {
    } else {
      assert events[..i][..i - 1] == events[..i - 1];
      LockIsReleased(ser, table, file, events, i - 1);
      NextKeepsHolder(ser, StateAt(ser, table, file, events, i - 1), events[i - 1]);
    }
  }

  /** A crash frees the lock and forgets the calls; the files stay. */
  lemma CrashFrees<T>(ser: T -> Bytes, s: State<T>, table: T)
    requires s.versions != []
    ensures var s' := Next(ser, true, s, Crash(table));
            s'.lock == None && s'.phases == map[] && FileBytes(s') == FileBytes(s) && s'.versions == s.versions + [table]
  {
  }

  /** A call that finds the lock free, and is left alone, saves the current table, whatever the last one left behind. */
  lemma SaveGoesThrough<T>(ser: T -> Bytes, s: State<T>, p: nat)
    requires s.versions != [] && s.lock == None && p !in s.phases && NamesOk(s)
    ensures var current := |s.versions| - 1; var data := ser(s.versions[current]);
            var s1 := Next(ser, true, Next(ser, true, Next(ser, true, s, Call(p)), Acquire(p)), Snapshot(p));
            var s2 := Next(ser, true, Next(ser, true, Next(ser, true, s1, OpenTmp(p)), WriteSome(p, |data|)), Rename(p));
            && FileBytes(s2) == Some(data) && s2.fileVersion == current && s2.lock == None
            && p in s2.phases && s2.phases[p] == Finished(current, true)
  {
    var current := |s.versions| - 1;
    var data := ser(s.versions[current]);
    var s1 := Next(ser, true, Next(ser, true, Next(ser, true, s, Call(p)), Acquire(p)), Snapshot(p));
    assert s1 == s.(lock := Some(p), phases := s.phases[p := Snapped(current, current, false)]) by { hide WriteAt; }
    FinishesAlone(ser, s1, p, current);
  }

  lemma FinishesAlone<T>(ser: T -> Bytes, s: State<T>, p: nat, v: nat)
    requires v < |s.versions| && s.lock == Some(p) && NamesOk(s)
    requires p in s.phases && s.phases[p] == Snapped(v, v, false)
    ensures var data := ser(s.versions[v]);
            var s' := Next(ser, true, Next(ser, true, Next(ser, true, s, OpenTmp(p)), WriteSome(p, |data|)), Rename(p));
            && FileBytes(s') == Some(data) && s'.fileVersion == v && s'.lock == None
            && p in s'.phases && s'.phases[p] == Finished(v, true)
  {
    var data := ser(s.versions[v]);
    assert WriteAt([], 0, data[0..|data|]) == data;
  }

  // ---- without the lock ----

  function RaceAt<T>(ser: T -> Bytes, table: T, file: Option<Bytes>, events: seq<Event<T>>, i: nat): State<T>
    requires i <= |events|
  {
    Run(ser, false, Start(table, file), events[..i])
  }

  /** Without the lock, the file stays whole as long as nobody opens while another is writing. */
  lemma {:induction false} AloneStaysWhole<T(!new)>(ser: T -> Bytes, table: T, file: Option<Bytes>,
                                                     events: seq<Event<T>>, i: nat)
    requires i <= |events|
    requires forall k :: 0 <= k < i ==> OpensAlone(RaceAt(ser, table, file, events, k), events[k])
    ensures DataInv(ser, file, RaceAt(ser, table, file, events, i))
  {
    if i == 0 {
    } else {
      assert events[..i][..i - 1] == events[..i - 1];
      AloneStaysWhole(ser, table, file, events, i - 1);
      NextKeepsData(ser, file, false, RaceAt(ser, table, file, events, i - 1), events[i - 1]);
    }
  }

  /**
  And no longer: whenever one call is between opening and renaming and another is
  about to open, these two alone can leave an empty file.
  */
  lemma SecondOpenTears<T(!new)>(ser: T -> Bytes, s: State<T>, p: nat, q: nat)
    requires s.versions != [] && p in s.phases && q in s.phases && p != q
    requires s.phases[p].Writing? && !s.phases[p].stops && WriteOk(ser, s, s.phases[p]) && s.phases[q].Snapped?
    ensures var rest := |ser(s.versions[s.phases[p].version])| - s.phases[p].written;
            var s1 := Next(ser, false, s, WriteSome(p, rest));
            var s2 := Next(ser, false, s1, OpenTmp(q));
            var s3 := Next(ser, false, s2, Rename(p));
            FileBytes(s3) == Some([])
  {
  }

  /** A table that is written as two bytes. */
  function TwoBytes(b: bool): Bytes {
    if b then [1, 1] else [2, 2]
  }

  /** One event when nobody waits for the lock. */
  function Racing(s: State<bool>, e: Event<bool>): (s': State<bool>)
    requires s.versions != []
    ensures s'.versions != []
  {
    Next(TwoBytes, false, s, e)
  }

  function RaceState(lock: nat, phases: map<nat, Phase>, tmp: Bytes): State<bool> {
    State([true], Some(lock), phases, [tmp], Some(0), None, -1)
  }

  lemma FirstOpens()
    ensures Racing(Racing(Racing(Racing(Start(true, None), Call(0)), Acquire(0)), Snapshot(0)), OpenTmp(0))
         == RaceState(0, map[0 := Writing(0, 0, 0, 0, false)], [])
  {
    hide WriteAt;
  }

  /** One call has written half of its bytes. */
  lemma FirstHalf()
    ensures var s := Racing(Racing(Racing(Racing(Start(true, None), Call(0)), Acquire(0)), Snapshot(0)), OpenTmp(0));
            Racing(s, WriteSome(0, 1)) == RaceState(0, map[0 := Writing(0, 0, 0, 1, false)], [1])
  {
    FirstOpens();
    assert WriteAt([], 0, TwoBytes(true)[0..1]) == [1];
  }

  /** Another opens the same temporary file, which empties it. */
  lemma SecondOpens()
    ensures var s := Racing(Racing(RaceState(0, map[0 := Writing(0, 0, 0, 1, false)], [1]), Call(1)), Acquire(1));
            Racing(Racing(s, Snapshot(1)), OpenTmp(1))
            == RaceState(1, map[0 := Writing(0, 0, 0, 1, false), 1 := Writing(0, 0, 0, 0, false)], [])
  {
  }

  /** The first writes its other half, behind a hole, and renames: the file is no table's bytes. */
  lemma FirstRenames()
    ensures var s := RaceState(1, map[0 := Writing(0, 0, 0, 1, false), 1 := Writing(0, 0, 0, 0, false)], []);
            FileBytes(Racing(Racing(s, WriteSome(0, 1)), Rename(0))) == Some([0, 1])
  {
    assert Zeros(1) == [0];
    assert WriteAt([], 1, TwoBytes(true)[1..2]) == [0, 1];
  }

  /** Without the lock, this run of two calls leaves a torn file. */
  lemma WithoutLockTorn()
    ensures var s1 := Racing(Racing(Racing(Racing(Start(true, None), Call(0)), Acquire(0)), Snapshot(0)), OpenTmp(0));
            var s2 := Racing(Racing(Racing(s1, WriteSome(0, 1)), Call(1)), Acquire(1));
            var s3 := Racing(Racing(Racing(Racing(s2, Snapshot(1)), OpenTmp(1)), WriteSome(0, 1)), Rename(0));
            FileBytes(s3) == Some([0, 1]) && forall table :: FileBytes(s3) != Some(TwoBytes(table))
  {
    FirstHalf();
    SecondOpens();
    FirstRenames();
  }

  // ---- with the lock, and a call dropped during its write ----

  function LockedStep(s: State<bool>, e: Event<bool>): (s': State<bool>)
    requires s.versions != []
    ensures s'.versions != []
  {
    Next(TwoBytes, true, s, e)
  }

  /** Halfway: the first call has written half of its bytes and is dropped; the temporary file is its own. */
  function Halfway(): State<bool> {
    State([true], None, map[0 := Writing(0, 0, 0, 1, true)], [[1]], Some(0), None, -1)
  }

  lemma FirstOpensLocked()
    ensures LockedStep(LockedStep(LockedStep(LockedStep(Start(true, None), Call(0)), Acquire(0)), Snapshot(0)), OpenTmp(0))
         == RaceState(0, map[0 := Writing(0, 0, 0, 0, false)], [])
  {
    hide WriteAt;
  }

  lemma FirstHalfLocked()
    ensures LockedStep(RaceState(0, map[0 := Writing(0, 0, 0, 0, false)], []), WriteSome(0, 1))
         == RaceState(0, map[0 := Writing(0, 0, 0, 1, false)], [1])
  {
    assert WriteAt([], 0, TwoBytes(true)[0..1]) == [1];
  }

  lemma FirstIsDropped()
    ensures LockedStep(RaceState(0, map[0 := Writing(0, 0, 0, 1, false)], [1]), Abandon(0)) == Halfway()
  {
    hide WriteAt;
  }

  /** Taken over: the table has changed, and another call has the lock and the temporary file. */
  function TakenOver(tmp: Bytes, written: nat): State<bool> {
    State([true, false], Some(1), map[0 := Writing(0, 0, 0, 1, true), 1 := Writing(1, 1, 0, written, false)],
          [tmp], Some(0), None, -1)
  }

  lemma OtherOpens()
    ensures var s := LockedStep(LockedStep(LockedStep(Halfway(), Update(false)), Call(1)), Acquire(1));
            LockedStep(LockedStep(s, Snapshot(1)), OpenTmp(1)) == TakenOver([], 0)
  {
    hide WriteAt;
  }

  lemma OtherWrites()
    ensures LockedStep(TakenOver([], 0), WriteSome(1, 2)) == TakenOver([2, 2], 2)
  {
    assert WriteAt([], 0, TwoBytes(false)[0..2]) == [2, 2];
  }

  /** The other call renames, and the file is whole; then the first write goes on, into what is now the file. */
  lemma WritesOn()
    ensures var s := LockedStep(TakenOver([2, 2], 2), Rename(1));
            FileBytes(s) == Some([2, 2]) && FileBytes(LockedStep(s, WriteSome(0, 1))) == Some([2, 1])
  {
    assert WriteAt([2, 2], 1, TwoBytes(true)[1..2]) == [2, 1];
  }

  /** The lock alone is not enough: a call dropped during its write gives it up while the write goes on. */
  lemma DroppedWriteTears()
    ensures var s1 := LockedStep(LockedStep(LockedStep(LockedStep(Start(true, None), Call(0)), Acquire(0)), Snapshot(0)), OpenTmp(0));
            var s2 := LockedStep(LockedStep(LockedStep(LockedStep(s1, WriteSome(0, 1)), Abandon(0)), Update(false)), Call(1));
            var s3 := LockedStep(LockedStep(LockedStep(LockedStep(s2, Acquire(1)), Snapshot(1)), OpenTmp(1)), WriteSome(1, 2));
            var s4 := LockedStep(LockedStep(s3, Rename(1)), WriteSome(0, 1));
            FileBytes(s4) == Some([2, 1]) && forall table :: FileBytes(s4) != Some(TwoBytes(table))
  {
    FirstOpensLocked();
    FirstHalfLocked();
    FirstIsDropped();
    OtherOpens();
    OtherWrites();
    WritesOn();
    hide LockedStep;
  }
}
