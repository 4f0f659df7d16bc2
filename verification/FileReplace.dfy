/** Replacing a file while others read it. */
module FileReplace {
  // `write_private` and the capped readers, each a process whose single system
  // calls interleave freely. Names are entries of one directory; every process
  // works on one target name. A call is one atomic step of the kernel. Any call
  // may fail, writes and reads may be partial.

  import opened Prelude
  import opened Utf8

  type Ino = nat

  // ----- the file system -----

  datatype Kind = Regular | Link | Fifo | Device | Socket | Directory

  /** `synced` is what the last successful `fsync` put on the disk; `creator` is
      the writer whose exclusive create made the inode, if one did. */
  datatype Inode = Inode(kind: Kind, data: Bytes, mode: Mode, synced: Option<Bytes>, creator: Option<nat>)

  datatype FileSystem = FileSystem(names: map<string, Ino>, inodes: map<Ino, Inode>, next: Ino)

  /** No dangling name and no inode from the future. */
  ghost predicate Coherent(fs: FileSystem) {
    && (forall n :: n in fs.names ==> fs.names[n] in fs.inodes)
    && (forall i :: i in fs.inodes ==> i < fs.next)
  }

  /** A file system no writer has touched yet. */
  ghost predicate Untouched(fs: FileSystem) {
    && Coherent(fs)
    && (forall i :: i in fs.inodes ==> fs.inodes[i].creator == None)
  }

  // ----- the processes -----

  const MAX_RETRIES: nat := 16
  /** Permission bits: read, write and execute for owner, group and others. */
  datatype Bits = Bits(read: bool, write: bool, execute: bool)
  datatype Mode = Mode(owner: Bits, group: Bits, others: Bits)

  const NOTHING := Bits(false, false, false)
  const PRIVATE_MODE := Mode(Bits(true, true, false), NOTHING, NOTHING)   // 0o600

  /** `mode & 0o666` */
  function ReadWriteBits(m: Mode): Mode {
    Mode(m.owner.(execute := false), m.group.(execute := false), m.others.(execute := false))
  }

  datatype WriterPc =
    | Opening(attempt: nat)
    | Writing(tmp: string, ino: Ino, written: nat)
    | Renaming(tmp: string, ino: Ino)
    | Cleaning(tmp: string, ino: Ino)
    | Replaced(ino: Ino)
    | Failed(leftover: Option<string>)

  /** One call of `write_private`. Two calls may share a process id: threads of
      one process, or processes of two pid namespaces over one directory. */
  datatype Writer = Writer(pid: nat, contents: Bytes, pc: WriterPc)

  datatype ReadError = NotRegular | IoError | TooLarge

  datatype ReaderPc =
    | Statting
    | OpeningRead
    | CheckingHandle(ino: Ino)
    | Reading(ino: Ino, buf: Bytes, mode: Mode)
    | ReadOk(ino: Ino, bytes: Bytes, bits: Mode)
    | ReadErr(error: ReadError, handle: Option<Ino>)

  /** `Capped` refuses a file longer than `max`; `Head` takes its first `max` bytes. */
  datatype ReadMode = Capped | Head

  datatype Reader = Reader(how: ReadMode, max: nat, pc: ReaderPc)

  /** `bound` collects every inode the target name has ever stood for. */
  datatype State = State(fs: FileSystem, writers: seq<Writer>, readers: seq<Reader>, bound: set<Ino>)

  /** How the kernel answers the next call of a process: an error, or success
      moving at most `count` bytes if it is a read or a write. */
  datatype Answer = Fault | Success(count: nat)

  datatype Event = WriterCall(who: nat, answer: Answer) | ReaderCall(who: nat, answer: Answer)

  /** `.{name}.{pid}.{attempt}.tmp` */
  function TempName(target: string, pid: nat, attempt: nat): string {
    "." + target + "." + Decimal(pid) + "." + Decimal(attempt) + ".tmp"
  }

  lemma TempNameIsNotTarget(target: string, pid: nat, attempt: nat)
    ensures TempName(target, pid, attempt) != target
  {
    assert |TempName(target, pid, attempt)| > |target|;
  }

  function Min(a: nat, b: nat): nat {
    if a < b then a else b
  }

  // ----- one call of a writer -----

  function WithWriter(s: State, w: nat, pc: WriterPc): State
    requires w < |s.writers|
  {
    s.(writers := s.writers[w := s.writers[w].(pc := pc)])
  }

  /** `open(tmp, O_CREAT | O_EXCL)` */
  function OpenStep(t: string, s: State, w: nat, attempt: nat, answer: Answer): State
    requires w < |s.writers|
  {
    var tmp := TempName(t, s.writers[w].pid, attempt);
    if answer.Fault? then WithWriter(s, w, Failed(None))
    else if tmp in s.fs.names then
      if attempt < MAX_RETRIES then WithWriter(s, w, Opening(attempt + 1)) else WithWriter(s, w, Failed(None))
    else
      var inode := Inode(Regular, [], PRIVATE_MODE, None, Some(w));
      var fs := FileSystem(s.fs.names[tmp := s.fs.next], s.fs.inodes[s.fs.next := inode], s.fs.next + 1);
      WithWriter(s.(fs := fs), w, Writing(tmp, s.fs.next, 0))
  }

  /** One `write` of `write_all` while text is left, then the `fsync`. */
  function WriteStep(s: State, w: nat, tmp: string, ino: Ino, written: nat, answer: Answer): State
    requires w < |s.writers|
  {
    var text := s.writers[w].contents;
    if answer.Fault? || ino !in s.fs.inodes then WithWriter(s, w, Cleaning(tmp, ino))
    else if written < |text| then
      var upto := Min(written + Min(answer.count, |text|) + 1, |text|);
      var inode := s.fs.inodes[ino];
      var fs := s.fs.(inodes := s.fs.inodes[ino := inode.(data := inode.data + text[written..upto])]);
      WithWriter(s.(fs := fs), w, Writing(tmp, ino, upto))
    else
      var inode := s.fs.inodes[ino];
      var fs := s.fs.(inodes := s.fs.inodes[ino := inode.(synced := Some(inode.data))]);
      WithWriter(s.(fs := fs), w, Renaming(tmp, ino))
  }

  /** `rename(tmp, target)`: one step replaces whatever entry is at the target,
      a link included; only a directory there makes it fail. */
  function RenameStep(t: string, s: State, w: nat, tmp: string, ino: Ino, answer: Answer): State
    requires w < |s.writers|
  {
    if answer.Fault? || tmp !in s.fs.names || IsDirectory(s.fs, t) then WithWriter(s, w, Cleaning(tmp, ino))
    else
      var moved := s.fs.names[tmp];
      var fs := s.fs.(names := (s.fs.names - {tmp})[t := moved]);
      WithWriter(s.(fs := fs, bound := s.bound + {moved}), w, Replaced(ino))
  }

  predicate IsDirectory(fs: FileSystem, name: string) {
    name in fs.names && fs.names[name] in fs.inodes && fs.inodes[fs.names[name]].kind == Directory
  }

  /** `unlink(tmp)`, whose own failure is ignored. */
  function CleanStep(s: State, w: nat, tmp: string, answer: Answer): State
    requires w < |s.writers|
  {
    if answer.Fault? then WithWriter(s, w, Failed(Some(tmp)))
    else WithWriter(s.(fs := s.fs.(names := s.fs.names - {tmp})), w, Failed(None))
  }

  function WriterStep(t: string, s: State, w: nat, answer: Answer): State
    requires w < |s.writers|
  {
    match s.writers[w].pc
    case Opening(attempt) => OpenStep(t, s, w, attempt, answer)
    case Writing(tmp, ino, written) => WriteStep(s, w, tmp, ino, written, answer)
    case Renaming(tmp, ino) => RenameStep(t, s, w, tmp, ino, answer)
    case Cleaning(tmp, ino) => CleanStep(s, w, tmp, answer)
    case Replaced(_) => s
    case Failed(_) => s
  }

  // ----- one call of a reader -----

  function Limit(r: Reader): nat {
    if r.how.Capped? then r.max + 1 else r.max
  }

  function Finish(r: Reader, ino: Ino, buf: Bytes, mode: Mode): ReaderPc {
    if r.how.Capped? && |buf| > r.max then ReadErr(TooLarge, Some(ino)) else ReadOk(ino, buf, ReadWriteBits(mode))
  }

  /** What one `read` of the capped handle returns: nothing at the end of the
      file or at the cap, else at least one byte and at most `count + 1`. */
  function ReadMore(data: Bytes, limit: nat, buf: Bytes, count: nat): (more: Bytes)
    ensures |buf| <= Min(|data|, limit) ==> |buf| + |more| <= Min(|data|, limit) && more == data[|buf|..|buf| + |more|]
    ensures more == [] <==> |buf| >= Min(|data|, limit)
  {
    var end := Min(|data|, limit);
    if |buf| < end then data[|buf|..Min(|buf| + Min(count, end) + 1, end)] else []
  }

  function ReadPc(t: string, fs: FileSystem, r: Reader, answer: Answer): ReaderPc {
    match r.pc
    case Statting =>
      // `lstat`: a missing name falls through to the open, which reports it.
      if answer.Fault? then ReadErr(IoError, None)
      else if t in fs.names && fs.names[t] in fs.inodes && fs.inodes[fs.names[t]].kind != Regular then ReadErr(NotRegular, None)
      else OpeningRead
    case OpeningRead =>
      // `open(O_NONBLOCK | O_NOFOLLOW)`: a link is refused, a pipe does not block.
      if answer.Fault? || t !in fs.names || fs.names[t] !in fs.inodes || fs.inodes[fs.names[t]].kind == Link
      then ReadErr(IoError, None)
      else CheckingHandle(fs.names[t])
    case CheckingHandle(ino) =>
      // `fstat` on the handle.
      if answer.Fault? || ino !in fs.inodes then ReadErr(IoError, Some(ino))
      else if fs.inodes[ino].kind != Regular then ReadErr(NotRegular, Some(ino))
      else Reading(ino, [], fs.inodes[ino].mode)
    case Reading(ino, buf, mode) =>
      if answer.Fault? || ino !in fs.inodes then ReadErr(IoError, Some(ino))
      else
        var more := ReadMore(fs.inodes[ino].data, Limit(r), buf, answer.count);
        if more == [] then Finish(r, ino, buf, mode) else Reading(ino, buf + more, mode)
    case ReadOk(_, _, _) => r.pc
    case ReadErr(_, _) => r.pc
  }

  function ReaderStep(t: string, s: State, r: nat, answer: Answer): State
    requires r < |s.readers|
  {
    s.(readers := s.readers[r := s.readers[r].(pc := ReadPc(t, s.fs, s.readers[r], answer))])
  }

  function Step(t: string, s: State, e: Event): (r: State)
    ensures |r.writers| == |s.writers| && |r.readers| == |s.readers|
  {
    match e
    case WriterCall(w, answer) => if w < |s.writers| then WriterStep(t, s, w, answer) else s
    case ReaderCall(r, answer) => if r < |s.readers| then ReaderStep(t, s, r, answer) else s
  }

  /** An interleaving is a sequence of calls; this is where it leads. */
  function Run(t: string, s: State, events: seq<Event>): (r: State)
    ensures |r.writers| == |s.writers| && |r.readers| == |s.readers|
    decreases |events|
  {
    if events == [] then s
    else Step(t, Run(t, s, events[..|events| - 1]), events[|events| - 1])
  }

  // ----- the invariant -----

  ghost predicate Initial(t: string, s: State) {
    && Untouched(s.fs)
    && (forall w :: 0 <= w < |s.writers| ==> s.writers[w].pc == Opening(0))
    && (forall r :: 0 <= r < |s.readers| ==> s.readers[r].pc == Statting)
    && s.bound == if t in s.fs.names then {s.fs.names[t]} else {}
  }

  ghost predicate IsComplete(fs: FileSystem, ws: seq<Writer>, w: nat, ino: Ino)
    requires w < |ws|
  {
    ino in fs.inodes && fs.inodes[ino] == Inode(Regular, ws[w].contents, PRIVATE_MODE, Some(ws[w].contents), Some(w))
  }

  /** `ino` is a whole version of the target: the entry it started with, or the
      complete, synced text of a writer whose rename went through. */
  ghost predicate IsVersion(t: string, start: FileSystem, fs: FileSystem, ws: seq<Writer>, ino: Ino) {
    && ino in fs.inodes
    && match fs.inodes[ino].creator
       case None => t in start.names && start.names[t] == ino && ino in start.inodes && fs.inodes[ino] == start.inodes[ino]
       case Some(w) => w < |ws| && ws[w].pc == Replaced(ino) && IsComplete(fs, ws, w, ino)
  }

  /** The temporary entry a writer has in the directory. */
  function TempOf(w: Writer): Option<string> {
    match w.pc
    case Writing(tmp, _, _) => Some(tmp)
    case Renaming(tmp, _) => Some(tmp)
    case Cleaning(tmp, _) => Some(tmp)
    case Failed(leftover) => leftover
    case _ => None
  }

  ghost predicate IsTemp(t: string, w: Writer, name: string) {
    exists attempt: nat :: attempt <= MAX_RETRIES && name == TempName(t, w.pid, attempt)
  }

  ghost predicate OwnsTemp(t: string, fs: FileSystem, ws: seq<Writer>, w: nat, name: string)
    requires w < |ws|
  {
    && IsTemp(t, ws[w], name)
    && name in fs.names
    && fs.names[name] in fs.inodes
    && fs.inodes[fs.names[name]].creator == Some(w)
  }

  ghost predicate WriterInv(t: string, fs: FileSystem, ws: seq<Writer>, w: nat)
    requires w < |ws|
  {
    var me := ws[w];
    && (TempOf(me).Some? ==> OwnsTemp(t, fs, ws, w, TempOf(me).value))
    && match me.pc
       case Opening(attempt) => attempt <= MAX_RETRIES
       case Writing(tmp, ino, written) =>
         && written <= |me.contents|
         && fs.names[tmp] == ino
         && fs.inodes[ino] == Inode(Regular, me.contents[..written], PRIVATE_MODE, None, Some(w))
       case Renaming(tmp, ino) => fs.names[tmp] == ino && IsComplete(fs, ws, w, ino)
       case Cleaning(tmp, ino) => fs.names[tmp] == ino
       case Replaced(ino) => IsComplete(fs, ws, w, ino)
       case Failed(_) => true
  }

  ghost predicate ReaderInv(fs: FileSystem, bound: set<Ino>, me: Reader) {
    match me.pc
    case Statting => true
    case OpeningRead => true
    case CheckingHandle(ino) => ino in bound
    case Reading(ino, buf, mode) =>
      && ino in bound && ino in fs.inodes && fs.inodes[ino].kind == Regular && mode == fs.inodes[ino].mode
      && |buf| <= Limit(me) && |buf| <= |fs.inodes[ino].data| && buf == fs.inodes[ino].data[..|buf|]
    case ReadOk(ino, bytes, bits) =>
      && ino in bound && ino in fs.inodes && fs.inodes[ino].kind == Regular && bits == ReadWriteBits(fs.inodes[ino].mode)
      && bytes == fs.inodes[ino].data[..Min(|fs.inodes[ino].data|, me.max)]
      && (me.how.Capped? ==> bytes == fs.inodes[ino].data)
    case ReadErr(error, handle) =>
      && (handle.Some? ==> handle.value in bound)
      && (error == TooLarge ==> me.how.Capped? && handle.Some? && handle.value in fs.inodes && |fs.inodes[handle.value].data| > me.max)
  }

  /** An entry other than the target is an original one or some writer's temporary. */
  ghost predicate EntryInv(start: FileSystem, fs: FileSystem, ws: seq<Writer>, name: string)
    requires name in fs.names && fs.names[name] in fs.inodes
  {
    match fs.inodes[fs.names[name]].creator
    case None => name in start.names && start.names[name] == fs.names[name]
    case Some(w) => w < |ws| && TempOf(ws[w]) == Some(name)
  }

  ghost predicate InodeInv(start: FileSystem, fs: FileSystem) {
    && Coherent(fs)
    && (forall i :: i in start.inodes ==> i in fs.inodes && fs.inodes[i] == start.inodes[i])
    && (forall i :: i in fs.inodes && fs.inodes[i].creator == None ==> i in start.inodes)
  }

  ghost predicate NameInv(t: string, start: FileSystem, fs: FileSystem, ws: seq<Writer>)
    requires Coherent(fs)
  {
    && (forall n :: n in start.names && n != t ==> n in fs.names && fs.names[n] == start.names[n])
    && (forall n :: n in fs.names && n != t ==> EntryInv(start, fs, ws, n))
    && (t in start.names ==> t in fs.names)
  }

  ghost predicate BoundInv(t: string, start: FileSystem, fs: FileSystem, ws: seq<Writer>, bound: set<Ino>) {
    && (t in fs.names ==> fs.names[t] in bound)
    && (bound != {} ==> t in fs.names)
    && (forall w :: 0 <= w < |ws| && ws[w].pc.Replaced? ==> ws[w].pc.ino in bound)
    && (forall i :: i in bound ==> IsVersion(t, start, fs, ws, i))
  }

  ghost predicate Inv(t: string, start: FileSystem, s: State) {
    && Untouched(start)
    && InodeInv(start, s.fs)
    && NameInv(t, start, s.fs, s.writers)
    && BoundInv(t, start, s.fs, s.writers, s.bound)
    && (forall w :: 0 <= w < |s.writers| ==> WriterInv(t, s.fs, s.writers, w))
    && (forall r :: 0 <= r < |s.readers| ==> ReaderInv(s.fs, s.bound, s.readers[r]))
  }

  lemma InitialInv(t: string, s: State)
    requires Initial(t, s)
    ensures Inv(t, s.fs, s)
  {}

  // ----- what one call of a writer may touch -----

  /** From `s` to `s'` nothing changed that writer `w` did not create itself,
      except what the target name stands for. */
  ghost predicate TouchesOnlyOwn(t: string, s: State, s': State, w: nat)
    requires Coherent(s.fs)
  {
    && |s'.writers| == |s.writers|
    && s'.readers == s.readers
    && s.bound <= s'.bound
    && (forall v :: 0 <= v < |s.writers| && v != w ==> s'.writers[v] == s.writers[v])
    && (forall i :: i in s.fs.inodes && s.fs.inodes[i].creator != Some(w) ==> i in s'.fs.inodes && s'.fs.inodes[i] == s.fs.inodes[i])
    && (forall i :: i in s'.fs.inodes && s'.fs.inodes[i].creator != Some(w) ==> i in s.fs.inodes && s.fs.inodes[i] == s'.fs.inodes[i])
    && (forall n :: n in s.fs.names && n != t && s.fs.inodes[s.fs.names[n]].creator != Some(w)
          ==> n in s'.fs.names && s'.fs.names[n] == s.fs.names[n])
  }

  lemma TempIsNotTarget(t: string, w: Writer, name: string)
    requires IsTemp(t, w, name)
    ensures name != t
  {
    var attempt: nat :| attempt <= MAX_RETRIES && name == TempName(t, w.pid, attempt);
    TempNameIsNotTarget(t, w.pid, attempt);
  }

  lemma WriterTouchesOnlyItsOwn(t: string, s: State, w: nat, answer: Answer)
    requires Coherent(s.fs) && w < |s.writers| && WriterInv(t, s.fs, s.writers, w)
    ensures TouchesOnlyOwn(t, s, WriterStep(t, s, w, answer), w)
  {
    match s.writers[w].pc
    case Renaming(tmp, _) => TempIsNotTarget(t, s.writers[w], tmp);
    case _ =>
  }

  lemma OthersKeepTheirInv(t: string, start: FileSystem, s: State, s': State, w: nat, v: nat)
    requires Inv(t, start, s) && w < |s.writers| && v < |s.writers| && v != w
    requires TouchesOnlyOwn(t, s, s', w)
    ensures WriterInv(t, s'.fs, s'.writers, v)
  {
    assert WriterInv(t, s.fs, s.writers, v);
    if TempOf(s.writers[v]).Some? {
      TempIsNotTarget(t, s.writers[v], TempOf(s.writers[v]).value);
    }
  }

  /** A version of the target is never touched again: its writer is done. */
  lemma VersionsAreFinal(t: string, start: FileSystem, s: State, w: nat, answer: Answer, i: Ino)
    requires Inv(t, start, s) && w < |s.writers| && i in s.bound
    ensures var s' := WriterStep(t, s, w, answer);
            i in s'.fs.inodes && s'.fs.inodes[i] == s.fs.inodes[i] && IsVersion(t, start, s'.fs, s'.writers, i)
  {
    assert IsVersion(t, start, s.fs, s.writers, i);
    WriterTouchesOnlyItsOwn(t, s, w, answer);
  }

  lemma StepKeepsCoherence(t: string, s: State, w: nat, answer: Answer)
    requires Coherent(s.fs) && w < |s.writers| && WriterInv(t, s.fs, s.writers, w)
    ensures Coherent(WriterStep(t, s, w, answer).fs)
  {}

  lemma WriterStepKeepsInodeInv(t: string, start: FileSystem, s: State, w: nat, answer: Answer)
    requires Untouched(start) && InodeInv(start, s.fs) && w < |s.writers| && WriterInv(t, s.fs, s.writers, w)
    ensures InodeInv(start, WriterStep(t, s, w, answer).fs)
  {
    StepKeepsCoherence(t, s, w, answer);
    WriterTouchesOnlyItsOwn(t, s, w, answer);
  }

  /** An entry of the new state that was there before, or is `w`'s new temporary. */
  lemma WriterStepKeepsEntry(t: string, start: FileSystem, s: State, s': State, w: nat, n: string)
    requires Coherent(s.fs) && Coherent(s'.fs) && TouchesOnlyOwn(t, s, s', w) && w < |s.writers|
    requires n != t && n in s'.fs.names && s'.fs.inodes[s'.fs.names[n]].creator != Some(w)
    requires n in s.fs.names && s.fs.names[n] == s'.fs.names[n] && EntryInv(start, s.fs, s.writers, n)
    ensures EntryInv(start, s'.fs, s'.writers, n)
  {}

  lemma OwnEntryAfterStep(t: string, start: FileSystem, s: State, w: nat, answer: Answer, n: string)
    requires Coherent(s.fs) && NameInv(t, start, s.fs, s.writers) && w < |s.writers| && n != t
    requires WriterInv(t, s.fs, s.writers, w)
    requires Coherent(WriterStep(t, s, w, answer).fs) && n in WriterStep(t, s, w, answer).fs.names
    ensures var s' := WriterStep(t, s, w, answer);
            if s'.fs.inodes[s'.fs.names[n]].creator == Some(w) then TempOf(s'.writers[w]) == Some(n)
            else n in s.fs.names && s.fs.names[n] == s'.fs.names[n]
  {
    assert n in s.fs.names ==> EntryInv(start, s.fs, s.writers, n);
  }

  lemma StartEntriesStay(t: string, start: FileSystem, s: State, s': State, w: nat)
    requires Untouched(start) && InodeInv(start, s.fs) && NameInv(t, start, s.fs, s.writers) && TouchesOnlyOwn(t, s, s', w)
    ensures forall n :: n in start.names && n != t ==> n in s'.fs.names && s'.fs.names[n] == start.names[n]
  {
    forall n | n in start.names && n != t ensures n in s'.fs.names && s'.fs.names[n] == start.names[n] {
      assert start.names[n] in start.inodes;
    }
  }

  lemma TargetStays(t: string, s: State, w: nat, answer: Answer)
    requires w < |s.writers| && WriterInv(t, s.fs, s.writers, w)
    ensures t in s.fs.names ==> t in WriterStep(t, s, w, answer).fs.names
  {
    match s.writers[w].pc
    case Cleaning(tmp, _) => TempIsNotTarget(t, s.writers[w], tmp);
    case _ =>
  }

  lemma WriterStepKeepsNameInv(t: string, start: FileSystem, s: State, w: nat, answer: Answer)
    requires Untouched(start) && InodeInv(start, s.fs) && NameInv(t, start, s.fs, s.writers)
    requires w < |s.writers| && WriterInv(t, s.fs, s.writers, w)
    requires Coherent(WriterStep(t, s, w, answer).fs)
    ensures var s' := WriterStep(t, s, w, answer); NameInv(t, start, s'.fs, s'.writers)
  {
    var s' := WriterStep(t, s, w, answer);
    WriterTouchesOnlyItsOwn(t, s, w, answer);
    StartEntriesStay(t, start, s, s', w);
    TargetStays(t, s, w, answer);
    forall n | n in s'.fs.names && n != t ensures EntryInv(start, s'.fs, s'.writers, n) {
      OwnEntryAfterStep(t, start, s, w, answer, n);
      if s'.fs.inodes[s'.fs.names[n]].creator != Some(w) {
        assert EntryInv(start, s.fs, s.writers, n);
        WriterStepKeepsEntry(t, start, s, s', w, n);
      }
    }
  }

  /** Only the rename changes what the target stands for, and it binds it to a
      complete inode of its writer. */
  lemma TargetAfterStep(t: string, s: State, w: nat, answer: Answer)
    requires w < |s.writers| && WriterInv(t, s.fs, s.writers, w)
    ensures var s' := WriterStep(t, s, w, answer);
            || (s'.bound == s.bound && (t in s'.fs.names <==> t in s.fs.names)
                && (t in s.fs.names ==> s'.fs.names[t] == s.fs.names[t])
                && (s'.writers[w].pc.Replaced? ==> s.writers[w].pc == s'.writers[w].pc))
            || (s.writers[w].pc.Renaming? && var ino := s.writers[w].pc.ino;
                t in s'.fs.names && s'.fs.names[t] == ino && s'.bound == s.bound + {ino}
                && s'.writers[w].pc == Replaced(ino) && IsVersion(t, s.fs, s'.fs, s'.writers, ino))
  {
    match s.writers[w].pc
    case Opening(attempt) => TempNameIsNotTarget(t, s.writers[w].pid, attempt);
    case Cleaning(tmp, _) => TempIsNotTarget(t, s.writers[w], tmp);
    case Renaming(tmp, _) => TempIsNotTarget(t, s.writers[w], tmp);
    case _ =>
  }

  lemma WriterStepKeepsBoundInv(t: string, start: FileSystem, s: State, w: nat, answer: Answer)
    requires Inv(t, start, s) && w < |s.writers|
    ensures var s' := WriterStep(t, s, w, answer); BoundInv(t, start, s'.fs, s'.writers, s'.bound)
  {
    var s' := WriterStep(t, s, w, answer);
    assert WriterInv(t, s.fs, s.writers, w);
    TargetAfterStep(t, s, w, answer);
    WriterTouchesOnlyItsOwn(t, s, w, answer);
    forall i | i in s'.bound ensures IsVersion(t, start, s'.fs, s'.writers, i) {
      if i in s.bound {
        VersionsAreFinal(t, start, s, w, answer, i);
      }
    }
  }

  lemma WritingKeepsOwnInv(t: string, s: State, w: nat, answer: Answer)
    requires w < |s.writers| && WriterInv(t, s.fs, s.writers, w) && s.writers[w].pc.Writing?
    ensures var s' := WriterStep(t, s, w, answer); WriterInv(t, s'.fs, s'.writers, w)
  {
    var (me, text) := (s.writers[w], s.writers[w].contents);
    assert text[..|text|] == text;
    if answer.Success? && me.pc.written < |text| {
      var upto := Min(me.pc.written + Min(answer.count, |text|) + 1, |text|);
      assert text[..me.pc.written] + text[me.pc.written..upto] == text[..upto];
    }
  }

  lemma WriterStepKeepsOwnInv(t: string, s: State, w: nat, answer: Answer)
    requires w < |s.writers| && WriterInv(t, s.fs, s.writers, w)
    ensures var s' := WriterStep(t, s, w, answer); WriterInv(t, s'.fs, s'.writers, w)
  {
    var me := s.writers[w];
    match me.pc
    case Opening(attempt) => assert IsTemp(t, me, TempName(t, me.pid, attempt));
    case Writing(_, _, _) => WritingKeepsOwnInv(t, s, w, answer);
    case Renaming(tmp, _) => TempIsNotTarget(t, me, tmp);
    case _ =>
  }

  lemma WriterStepKeepsInv(t: string, start: FileSystem, s: State, w: nat, answer: Answer)
    requires Inv(t, start, s) && w < |s.writers|
    ensures Inv(t, start, WriterStep(t, s, w, answer))
  {
    var s' := WriterStep(t, s, w, answer);
    WriterTouchesOnlyItsOwn(t, s, w, answer);
    WriterStepKeepsInodeInv(t, start, s, w, answer);
    WriterStepKeepsNameInv(t, start, s, w, answer);
    WriterStepKeepsBoundInv(t, start, s, w, answer);
    forall v | 0 <= v < |s'.writers| ensures WriterInv(t, s'.fs, s'.writers, v) {
      if v == w {
        WriterStepKeepsOwnInv(t, s, w, answer);
      } else {
        OthersKeepTheirInv(t, start, s, s', w, v);
      }
    }
    forall r | 0 <= r < |s'.readers| ensures ReaderInv(s'.fs, s'.bound, s'.readers[r]) {
      assert ReaderInv(s.fs, s.bound, s.readers[r]);
      forall i | i in s.bound ensures i in s'.fs.inodes && s'.fs.inodes[i] == s.fs.inodes[i] {
        VersionsAreFinal(t, start, s, w, answer, i);
      }
    }
  }

  lemma ReadKeepsPrefix(data: Bytes, limit: nat, buf: Bytes, count: nat)
    requires |buf| <= Min(|data|, limit) && buf == data[..|buf|]
    ensures var more := ReadMore(data, limit, buf, count);
            && |buf + more| <= Min(|data|, limit) && buf + more == data[..|buf + more|]
            && (more == [] ==> buf == data[..Min(|data|, limit)])
  {}

  lemma ReadingKeepsInv(t: string, fs: FileSystem, bound: set<Ino>, me: Reader, answer: Answer)
    requires ReaderInv(fs, bound, me) && me.pc.Reading?
    ensures ReaderInv(fs, bound, me.(pc := ReadPc(t, fs, me, answer)))
  {
    if answer.Success? {
      var data := fs.inodes[me.pc.ino].data;
      ReadKeepsPrefix(data, Limit(me), me.pc.buf, answer.count);
      assert data[..|data|] == data;
    }
  }

  lemma ReaderStepKeepsOwnInv(t: string, fs: FileSystem, bound: set<Ino>, me: Reader, answer: Answer)
    requires ReaderInv(fs, bound, me)
    requires t in fs.names ==> fs.names[t] in bound
    ensures ReaderInv(fs, bound, me.(pc := ReadPc(t, fs, me, answer)))
  {
    if me.pc.Reading? {
      ReadingKeepsInv(t, fs, bound, me, answer);
    }
  }

  lemma ReaderStepKeepsInv(t: string, start: FileSystem, s: State, r: nat, answer: Answer)
    requires Inv(t, start, s) && r < |s.readers|
    ensures Inv(t, start, ReaderStep(t, s, r, answer))
  {
    ReaderStepKeepsOwnInv(t, s.fs, s.bound, s.readers[r], answer);
  }

  lemma RunKeepsInv(t: string, s: State, events: seq<Event>)
    requires Initial(t, s)
    ensures Inv(t, s.fs, Run(t, s, events))
    decreases |events|
  {
    if events == [] {
      InitialInv(t, s);
    } else {
      var before := Run(t, s, events[..|events| - 1]);
      RunKeepsInv(t, s, events[..|events| - 1]);
      match events[|events| - 1]
      case WriterCall(w, answer) => if w < |before.writers| { WriterStepKeepsInv(t, s.fs, before, w, answer); }
      case ReaderCall(r, answer) => if r < |before.readers| { ReaderStepKeepsInv(t, s.fs, before, r, answer); }
    }
  }

  // ----- what every interleaving guarantees -----

  /** The bytes and the mode the target may show: those it started with, or the
      whole text of one writer that succeeded, readable by its owner only. */
  ghost predicate IsWhole(t: string, start: FileSystem, ws: seq<Writer>, kind: Kind, data: Bytes, mode: Mode) {
    || (t in start.names && start.names[t] in start.inodes
        && var was := start.inodes[start.names[t]]; kind == was.kind && data == was.data && mode == was.mode)
    || (exists w :: 0 <= w < |ws| && ws[w].pc.Replaced? && kind == Regular && data == ws[w].contents && mode == PRIVATE_MODE)
  }

  lemma VersionIsWhole(t: string, start: FileSystem, fs: FileSystem, ws: seq<Writer>, ino: Ino)
    requires IsVersion(t, start, fs, ws, ino)
    ensures IsWhole(t, start, ws, fs.inodes[ino].kind, fs.inodes[ino].data, fs.inodes[ino].mode)
  {}

  /** Whatever interleaves and whatever fails, the name stands for one whole
      version, and it stands for something exactly if it did at the start or
      some writer succeeded. */
  lemma TargetIsAlwaysOneVersion(t: string, s: State, events: seq<Event>)
    requires Initial(t, s)
    ensures var now := Run(t, s, events);
            && (t in now.fs.names <==> t in s.fs.names || exists w :: 0 <= w < |now.writers| && now.writers[w].pc.Replaced?)
            && (t in now.fs.names ==>
                  && now.fs.names[t] in now.fs.inodes
                  && var it := now.fs.inodes[now.fs.names[t]]; IsWhole(t, s.fs, now.writers, it.kind, it.data, it.mode))
  {
    RunKeepsInv(t, s, events);
    var now := Run(t, s, events);
    if t in now.fs.names {
      VersionIsWhole(t, s.fs, now.fs, now.writers, now.fs.names[t]);
    }
  }

  /** The inode a reader has open, once it has opened one. */
  function HandleOf(r: Reader): Option<Ino> {
    match r.pc
    case Statting => None
    case OpeningRead => None
    case CheckingHandle(ino) => Some(ino)
    case Reading(ino, _, _) => Some(ino)
    case ReadOk(ino, _, _) => Some(ino)
    case ReadErr(_, handle) => handle
  }

  /** Call `k` is one of reader `r`, and at that moment the name stood for `ino`. */
  ghost predicate NameStoodFor(t: string, s: State, events: seq<Event>, k: nat, r: nat, ino: Ino)
    requires k < |events|
  {
    var fs := Run(t, s, events[..k]).fs;
    events[k].ReaderCall? && events[k].who == r && t in fs.names && fs.names[t] == ino
  }

  lemma FreshHandle(t: string, s: State, e: Event, r: nat, ino: Ino)
    requires r < |s.readers| && r < |Step(t, s, e).readers|
    requires HandleOf(s.readers[r]) != Some(ino) && HandleOf(Step(t, s, e).readers[r]) == Some(ino)
    ensures e.ReaderCall? && e.who == r && t in s.fs.names && s.fs.names[t] == ino
  {}

  /** A reader's handle is what the name stood for at its own `open` call. */
  lemma {:induction false} HandleWasTheTarget(t: string, s: State, events: seq<Event>, r: nat, ino: Ino)
    requires Initial(t, s) && r < |s.readers|
    requires HandleOf(Run(t, s, events).readers[r]) == Some(ino)
    ensures exists k :: 0 <= k < |events| && NameStoodFor(t, s, events, k, r, ino)
    decreases |events|
  {
    var last := |events| - 1;
    var before := Run(t, s, events[..last]);
    if HandleOf(before.readers[r]) == Some(ino) {
      HandleWasTheTarget(t, s, events[..last], r, ino);
      var k :| 0 <= k < last && NameStoodFor(t, s, events[..last], k, r, ino);
      assert events[..last][..k] == events[..k];
      assert NameStoodFor(t, s, events, k, r, ino);
    } else {
      FreshHandle(t, before, events[last], r, ino);
      assert NameStoodFor(t, s, events, last, r, ino);
    }
  }

  /** What a reader that returned may have seen. */
  ghost predicate SawOneVersion(t: string, start: FileSystem, ws: seq<Writer>, me: Reader) {
    match me.pc
    case ReadOk(_, bytes, bits) =>
      exists data: Bytes, mode: Mode ::
        && IsWhole(t, start, ws, Regular, data, mode)
        && bits == Mode(mode.owner.(execute := false), mode.group.(execute := false), mode.others.(execute := false))
        && bytes == (if me.how.Capped? then data else data[..Min(|data|, me.max)])
        && |bytes| <= me.max
    case ReadErr(TooLarge, _) =>
      exists kind: Kind, data: Bytes, mode: Mode ::
        me.how.Capped? && IsWhole(t, start, ws, kind, data, mode) && |data| > me.max
    case _ => true
  }

  /** A successful read returns the bytes and the mode bits of one whole version
      (its first `max` bytes for `read_head_capped`), and a refusal for size
      means that version really is longer than the limit. */
  lemma ReaderGetsOneVersion(t: string, s: State, events: seq<Event>, r: nat)
    requires Initial(t, s) && r < |s.readers|
    ensures var now := Run(t, s, events);
            r < |now.readers| && SawOneVersion(t, s.fs, now.writers, now.readers[r])
  {
    RunKeepsInv(t, s, events);
    var now := Run(t, s, events);
    var me := now.readers[r];
    assert ReaderInv(now.fs, now.bound, me);
    match me.pc
    case ReadOk(ino, bytes, bits) =>
      VersionIsWhole(t, s.fs, now.fs, now.writers, ino);
      var it := now.fs.inodes[ino];
      assert IsWhole(t, s.fs, now.writers, Regular, it.data, it.mode);
      assert |bytes| <= me.max;
    case ReadErr(TooLarge, handle) =>
      VersionIsWhole(t, s.fs, now.fs, now.writers, handle.value);
    case _ =>
  }

  /** In every reachable state, a call of a writer changes no inode and no entry
      but its own, apart from the target name. */
  lemma NoWriterTouchesAnother(t: string, s: State, events: seq<Event>, w: nat, answer: Answer)
    requires Initial(t, s) && w < |s.writers|
    ensures var now := Run(t, s, events);
            Coherent(now.fs) && TouchesOnlyOwn(t, now, Step(t, now, WriterCall(w, answer)), w)
  {
    RunKeepsInv(t, s, events);
    WriterTouchesOnlyItsOwn(t, Run(t, s, events), w, answer);
  }

  /** No two writers share a temporary entry, and none uses a name that was
      already there, the target's included. */
  lemma TempsAreNotShared(t: string, s: State, events: seq<Event>, v: nat, w: nat)
    requires Initial(t, s) && v < w < |s.writers|
    ensures var now := Run(t, s, events);
            && |now.writers| == |s.writers|
            && var (a, b) := (TempOf(now.writers[v]), TempOf(now.writers[w]));
               && (a.Some? && b.Some? ==> a.value != b.value)
               && (b.Some? ==> b.value != t && b.value !in s.fs.names)
  {
    RunKeepsInv(t, s, events);
    var now := Run(t, s, events);
    assert WriterInv(t, now.fs, now.writers, v);
    assert WriterInv(t, now.fs, now.writers, w);
    if TempOf(now.writers[w]).Some? {
      TempIsNotTarget(t, now.writers[w], TempOf(now.writers[w]).value);
    }
  }

  predicate Finished(w: Writer) {
    w.pc.Replaced? || w.pc.Failed?
  }

  /** Once every writer is done, the directory holds its original entries, the
      target and whatever a failed cleanup left, nothing else. */
  lemma NothingElseIsLeft(t: string, s: State, events: seq<Event>)
    requires Initial(t, s)
    requires forall w :: 0 <= w < |Run(t, s, events).writers| ==> Finished(Run(t, s, events).writers[w])
    ensures var now := Run(t, s, events);
            && (forall n :: n in now.fs.names && n != t ==>
                  || (n in s.fs.names && now.fs.names[n] == s.fs.names[n])
                  || (exists w :: 0 <= w < |now.writers| && now.writers[w].pc == Failed(Some(n))))
            && (forall n :: n in s.fs.names && n != t ==> n in now.fs.names && now.fs.names[n] == s.fs.names[n])
  {
    RunKeepsInv(t, s, events);
    var now := Run(t, s, events);
    forall n | n in now.fs.names && n != t
      ensures (n in s.fs.names && now.fs.names[n] == s.fs.names[n])
              || (exists w :: 0 <= w < |now.writers| && now.writers[w].pc == Failed(Some(n)))
    {
      assert EntryInv(s.fs, now.fs, now.writers, n);
      if now.fs.inodes[now.fs.names[n]].creator.Some? {
        var w := now.fs.inodes[now.fs.names[n]].creator.value;
        assert now.writers[w].pc == Failed(Some(n));
      }
    }
  }

  /** Call `k` is the `unlink` of writer `w` on `name`, and it failed. */
  ghost predicate CleanupFailed(t: string, s: State, events: seq<Event>, k: nat, w: nat, name: string)
    requires k < |events|
  {
    var ws := Run(t, s, events[..k]).writers;
    events[k] == WriterCall(w, Fault) && w < |ws| && ws[w].pc.Cleaning? && ws[w].pc.tmp == name
  }

  lemma FreshLeftover(t: string, s: State, e: Event, w: nat, name: string)
    requires w < |s.writers| && w < |Step(t, s, e).writers|
    requires s.writers[w].pc != Failed(Some(name)) && Step(t, s, e).writers[w].pc == Failed(Some(name))
    ensures e == WriterCall(w, Fault) && s.writers[w].pc.Cleaning? && s.writers[w].pc.tmp == name
  {}

  /** A writer leaves its temporary file behind only when its own `unlink` fails. */
  lemma {:induction false} OnlyAFailedCleanupLeavesATemp(t: string, s: State, events: seq<Event>, w: nat, name: string)
    requires Initial(t, s) && w < |s.writers|
    requires Run(t, s, events).writers[w].pc == Failed(Some(name))
    ensures exists k :: 0 <= k < |events| && CleanupFailed(t, s, events, k, w, name)
    decreases |events|
  {
    var last := |events| - 1;
    var before := Run(t, s, events[..last]);
    if before.writers[w].pc == Failed(Some(name)) {
      OnlyAFailedCleanupLeavesATemp(t, s, events[..last], w, name);
      var k :| 0 <= k < last && CleanupFailed(t, s, events[..last], k, w, name);
      assert events[..last][..k] == events[..k];
      assert CleanupFailed(t, s, events, k, w, name);
    } else {
      FreshLeftover(t, before, events[last], w, name);
      assert CleanupFailed(t, s, events, last, w, name);
    }
  }

  /** What a power cut may leave on the disk: the directory shows any entry the
      target ever had, and an inode is certain to hold only what was synced. */
  ghost predicate AfterPowerCut(t: string, s: State, disk: FileSystem) {
    && Coherent(disk)
    && (t in disk.names ==>
          && disk.names[t] in s.bound
          && disk.names[t] in s.fs.inodes
          && var (was, found) := (s.fs.inodes[disk.names[t]], disk.inodes[disk.names[t]]);
             found.kind == was.kind && found.mode == was.mode && (was.synced.Some? ==> found.data == was.synced.value))
  }

  predicate IsSynced(inode: Inode) {
    inode.synced == Some(inode.data)
  }

  /** The `sync_all` before the rename is what makes a power cut harmless, where the
      entry the target started with is on the disk. */
  lemma PowerCutLeavesOneVersion(t: string, s: State, events: seq<Event>, disk: FileSystem)
    requires Initial(t, s)
    requires t in s.fs.names ==> IsSynced(s.fs.inodes[s.fs.names[t]])
    requires AfterPowerCut(t, Run(t, s, events), disk) && t in disk.names
    ensures var it := disk.inodes[disk.names[t]]; IsWhole(t, s.fs, Run(t, s, events).writers, it.kind, it.data, it.mode)
  {
    RunKeepsInv(t, s, events);
    var now := Run(t, s, events);
    VersionIsWhole(t, s.fs, now.fs, now.writers, disk.names[t]);
  }

  // ----- every writer finishes -----

  /** An upper bound on the calls a writer still makes. */
  function Rank(w: Writer): nat {
    match w.pc
    case Opening(attempt) => |w.contents| + 4 + (if attempt < MAX_RETRIES then MAX_RETRIES - attempt else 0)
    case Writing(_, _, written) => 3 + (if written < |w.contents| then |w.contents| - written else 0)
    case Renaming(_, _) => 2
    case Cleaning(_, _) => 1
    case _ => 0
  }

  function CallsOf(w: nat, events: seq<Event>): nat
    decreases |events|
  {
    if events == [] then 0
    else CallsOf(w, events[..|events| - 1])
         + (if events[|events| - 1].WriterCall? && events[|events| - 1].who == w then 1 else 0)
  }

  lemma RankFalls(t: string, s: State, e: Event, w: nat)
    requires w < |s.writers| && (s.writers[w].pc.Opening? ==> s.writers[w].pc.attempt <= MAX_RETRIES)
    ensures var s' := Step(t, s, e);
            && w < |s'.writers| && s'.writers[w].contents == s.writers[w].contents
            && (e.WriterCall? && e.who == w ==> Finished(s.writers[w]) || Rank(s'.writers[w]) < Rank(s.writers[w]))
            && (!(e.WriterCall? && e.who == w) ==> s'.writers[w] == s.writers[w])
            && (Finished(s.writers[w]) ==> Finished(s'.writers[w]))
            && (s'.writers[w].pc.Opening? ==> s'.writers[w].pc.attempt <= MAX_RETRIES)
  {}

  /** At most 17 opens, one write a byte, a sync, a rename and a cleanup. */
  lemma {:induction false} EveryWriterFinishes(t: string, s: State, events: seq<Event>, w: nat)
    requires Initial(t, s) && w < |s.writers|
    ensures var ws := Run(t, s, events).writers;
            && w < |ws| && ws[w].contents == s.writers[w].contents
            && (Finished(ws[w]) || Rank(ws[w]) + CallsOf(w, events) <= |s.writers[w].contents| + 20)
            && (ws[w].pc.Opening? ==> ws[w].pc.attempt <= MAX_RETRIES)
    decreases |events|
  {
    if events != [] {
      var last := |events| - 1;
      EveryWriterFinishes(t, s, events[..last], w);
      RankFalls(t, Run(t, s, events[..last]), events[last], w);
    }
  }

  // ----- why a call of `write_private` fails -----

  /** Still on its way to the target. */
  predicate Trying(w: Writer) {
    w.pc.Opening? || w.pc.Writing? || w.pc.Renaming?
  }

  predicate Losing(w: Writer) {
    w.pc.Cleaning? || w.pc.Failed?
  }

  ghost predicate HasFile(fs: FileSystem, w: nat) {
    exists i :: i in fs.inodes && fs.inodes[i].creator == Some(w)
  }

  /** The file of writer `w` holds its whole text, private and on the disk. */
  ghost predicate IsWholeFile(inode: Inode, w: nat, text: Bytes) {
    && inode.kind == Regular && inode.data == text && inode.synced == Some(text) && inode.creator == Some(w)
    && inode.mode == Mode(Bits(true, true, false), Bits(false, false, false), Bits(false, false, false))
  }

  /** After `calls` calls of writer `w`, the next one goes wrong: the kernel refuses
      it; or it is the 17th, no create has gone through, and its name is taken too; or
      the text is whole and on the disk, and a directory stands at the target. */
  ghost predicate Wrong(t: string, fs: FileSystem, w: nat, pid: nat, text: Bytes, calls: nat, answer: Answer) {
    || answer.Fault?
    || (calls == MAX_RETRIES && !HasFile(fs, w) && TempName(t, pid, MAX_RETRIES) in fs.names)
    || ((exists i :: i in fs.inodes && IsWholeFile(fs.inodes[i], w, text)) && IsDirectory(fs, t))
  }

  ghost predicate GoesWrong(t: string, s: State, events: seq<Event>, k: nat, w: nat)
    requires k < |events| && w < |s.writers|
  {
    var now := Run(t, s, events[..k]);
    && events[k].WriterCall? && events[k].who == w && Trying(now.writers[w])
    && Wrong(t, now.fs, w, s.writers[w].pid, s.writers[w].contents, CallsOf(w, events[..k]), events[k].answer)
  }

  /** Until a create goes through every call has been one; then there is one file. */
  ghost predicate FileHistory(fs: FileSystem, me: Writer, w: nat, calls: nat) {
    match me.pc
    case Opening(attempt) => attempt == calls && !HasFile(fs, w)
    case Writing(_, ino, _) => forall i :: i in fs.inodes && fs.inodes[i].creator == Some(w) ==> i == ino
    case _ => true
  }

  lemma StepKeepsFileHistory(t: string, s: State, w: nat, answer: Answer, calls: nat)
    requires Coherent(s.fs) && w < |s.writers| && WriterInv(t, s.fs, s.writers, w)
    requires FileHistory(s.fs, s.writers[w], w, calls)
    ensures var s' := WriterStep(t, s, w, answer); FileHistory(s'.fs, s'.writers[w], w, calls + 1)
  {}

  lemma OthersKeepFileHistory(t: string, s: State, s': State, v: nat, w: nat, calls: nat)
    requires Coherent(s.fs) && w < |s.writers| && v != w && TouchesOnlyOwn(t, s, s', v)
    requires FileHistory(s.fs, s.writers[w], w, calls)
    ensures FileHistory(s'.fs, s'.writers[w], w, calls)
  {}

  lemma EventKeepsFileHistory(t: string, start: FileSystem, s: State, e: Event, w: nat, calls: nat)
    requires Inv(t, start, s) && w < |s.writers| && FileHistory(s.fs, s.writers[w], w, calls)
    ensures var s' := Step(t, s, e);
            && FileHistory(s'.fs, s'.writers[w], w, if e.WriterCall? && e.who == w then calls + 1 else calls)
            && s'.writers[w].pid == s.writers[w].pid && s'.writers[w].contents == s.writers[w].contents
  {
    hide Inv, FileHistory, WriterStep, ReaderStep;
    InvSays(t, start, s, w);
    if e.WriterCall? && e.who < |s.writers| {
      InvSays(t, start, s, e.who);
      WriterTouchesOnlyItsOwn(t, s, e.who, e.answer);
      StepKeepsWho(t, s, e.who, e.answer);
      if e.who == w {
        StepKeepsFileHistory(t, s, w, e.answer, calls);
      } else {
        OthersKeepFileHistory(t, s, Step(t, s, e), e.who, w, calls);
      }
    } else if e.ReaderCall? && e.who < |s.readers| {
      ReadersTouchNothing(t, s, e.who, e.answer);
    }
  }

  lemma {:induction false} RunKeepsFileHistory(t: string, s: State, events: seq<Event>, w: nat)
    requires Initial(t, s) && w < |s.writers|
    ensures var now := Run(t, s, events);
            && FileHistory(now.fs, now.writers[w], w, CallsOf(w, events))
            && now.writers[w].pid == s.writers[w].pid && now.writers[w].contents == s.writers[w].contents
    decreases |events|
  {
    hide Initial, Inv, FileHistory, Step;
    if events == [] {
      NothingCreatedYet(t, s, w);
    } else {
      var last := |events| - 1;
      RunKeepsFileHistory(t, s, events[..last], w);
      RunKeepsInv(t, s, events[..last]);
      EventKeepsFileHistory(t, s.fs, Run(t, s, events[..last]), events[last], w, CallsOf(w, events[..last]));
    }
  }

  lemma NothingCreatedYet(t: string, s: State, w: nat)
    requires Initial(t, s) && w < |s.writers|
    ensures FileHistory(s.fs, s.writers[w], w, 0)
  {}

  lemma InvSays(t: string, start: FileSystem, s: State, w: nat)
    requires Inv(t, start, s) && w < |s.writers|
    ensures Coherent(s.fs) && WriterInv(t, s.fs, s.writers, w)
  {}

  lemma StepKeepsWho(t: string, s: State, w: nat, answer: Answer)
    requires w < |s.writers|
    ensures var s' := WriterStep(t, s, w, answer);
            |s'.writers| == |s.writers| && s'.writers[w].pid == s.writers[w].pid && s'.writers[w].contents == s.writers[w].contents
  {}

  lemma ReadersTouchNothing(t: string, s: State, r: nat, answer: Answer)
    requires r < |s.readers|
    ensures ReaderStep(t, s, r, answer).fs == s.fs && ReaderStep(t, s, r, answer).writers == s.writers
  {}

  /** One call of a writer that is still trying. */
  lemma CallGoesWrongIff(t: string, s: State, w: nat, answer: Answer, calls: nat)
    requires Coherent(s.fs) && w < |s.writers| && WriterInv(t, s.fs, s.writers, w) && Trying(s.writers[w])
    requires FileHistory(s.fs, s.writers[w], w, calls)
    ensures Losing(WriterStep(t, s, w, answer).writers[w])
            <==> Wrong(t, s.fs, w, s.writers[w].pid, s.writers[w].contents, calls, answer)
  {
    var me := s.writers[w];
    match me.pc
    case Opening(_) =>
      assert forall i :: i in s.fs.inodes && IsWholeFile(s.fs.inodes[i], w, me.contents) ==> s.fs.inodes[i].creator == Some(w);
    case Writing(_, ino, _) =>
      assert s.fs.inodes[ino].creator == Some(w);
    case Renaming(_, ino) =>
      assert s.fs.inodes[ino].creator == Some(w) && IsWholeFile(s.fs.inodes[ino], w, me.contents);
  }

  lemma LosersStayLosers(t: string, s: State, e: Event, w: nat)
    requires w < |s.writers|
    ensures Losing(s.writers[w]) ==> Losing(Step(t, s, e).writers[w])
    ensures !(e.WriterCall? && e.who == w) ==> Step(t, s, e).writers[w] == s.writers[w]
    ensures s.writers[w].pc.Replaced? ==> Step(t, s, e).writers[w] == s.writers[w]
  {}

  ghost predicate SomeCallGoesWrong(t: string, s: State, events: seq<Event>, w: nat)
    requires w < |s.writers|
  {
    exists k :: 0 <= k < |events| && GoesWrong(t, s, events, k, w)
  }

  lemma WrongInPrefixIff(t: string, s: State, events: seq<Event>, w: nat)
    requires w < |s.writers| && events != []
    ensures var last := |events| - 1;
            SomeCallGoesWrong(t, s, events, w) <==> SomeCallGoesWrong(t, s, events[..last], w) || GoesWrong(t, s, events, last, w)
  {
    hide Run, CallsOf, Wrong;
    var front := events[..|events| - 1];
    assert forall k :: 0 <= k < |front| ==> front[..k] == events[..k] && front[k] == events[k];
    if k :| 0 <= k < |front| && GoesWrong(t, s, front, k, w) {
      assert GoesWrong(t, s, events, k, w);
    }
    if k :| 0 <= k < |events| && GoesWrong(t, s, events, k, w) {
      assert k < |front| ==> GoesWrong(t, s, front, k, w);
    }
  }

  lemma EventLosesIff(t: string, start: FileSystem, s: State, e: Event, w: nat, calls: nat)
    requires Inv(t, start, s) && w < |s.writers| && FileHistory(s.fs, s.writers[w], w, calls)
    ensures Losing(Step(t, s, e).writers[w]) <==>
            || Losing(s.writers[w])
            || (e.WriterCall? && e.who == w && Trying(s.writers[w])
                && Wrong(t, s.fs, w, s.writers[w].pid, s.writers[w].contents, calls, e.answer))
  {
    hide Inv, FileHistory, Step, Wrong;
    LosersStayLosers(t, s, e, w);
    if e.WriterCall? && e.who == w && Trying(s.writers[w]) {
      InvSays(t, start, s, w);
      CallGoesWrongIff(t, s, w, e.answer, calls);
      StepOfWriter(t, s, w, e.answer);
    }
  }

  /** A writer gives up exactly when one of its own calls goes wrong: refused by the
      kernel, the 17th create to find its name taken, or a directory at the target. */
  lemma {:induction false} FailsIffACallGoesWrong(t: string, s: State, events: seq<Event>, w: nat)
    requires Initial(t, s) && w < |s.writers|
    ensures Losing(Run(t, s, events).writers[w]) <==> SomeCallGoesWrong(t, s, events, w)
    decreases |events|
  {
    hide Inv, FileHistory, Step, Wrong, CallsOf;
    if events != [] {
      hide Initial, SomeCallGoesWrong;
      var last := |events| - 1;
      FailsIffACallGoesWrong(t, s, events[..last], w);
      WrongInPrefixIff(t, s, events, w);
      RunKeepsFileHistory(t, s, events[..last], w);
      RunKeepsInv(t, s, events[..last]);
      EventLosesIff(t, s.fs, Run(t, s, events[..last]), events[last], w, CallsOf(w, events[..last]));
    }
  }

  lemma StepOfWriter(t: string, s: State, w: nat, answer: Answer)
    requires w < |s.writers|
    ensures Step(t, s, WriterCall(w, answer)) == WriterStep(t, s, w, answer)
  {}

  /** Right after call `k`, one of writer `w`, the target stands for its whole text. */
  ghost predicate PutsItsText(t: string, s: State, events: seq<Event>, k: nat, w: nat)
    requires k < |events| && w < |s.writers|
  {
    var fs := Run(t, s, events[..k + 1]).fs;
    && events[k].WriterCall? && events[k].who == w
    && t in fs.names && fs.names[t] in fs.inodes && IsWholeFile(fs.inodes[fs.names[t]], w, s.writers[w].contents)
  }

  lemma RenamePutsTheText(t: string, s: State, w: nat, answer: Answer)
    requires Coherent(s.fs) && w < |s.writers| && WriterInv(t, s.fs, s.writers, w)
    requires !s.writers[w].pc.Replaced? && WriterStep(t, s, w, answer).writers[w].pc.Replaced?
    ensures var fs := WriterStep(t, s, w, answer).fs;
            t in fs.names && fs.names[t] in fs.inodes && IsWholeFile(fs.inodes[fs.names[t]], w, s.writers[w].contents)
  {}

  lemma {:induction false} SuccessPutsTheText(t: string, s: State, events: seq<Event>, w: nat)
    requires Initial(t, s) && w < |s.writers| && Run(t, s, events).writers[w].pc.Replaced?
    ensures exists k :: 0 <= k < |events| && PutsItsText(t, s, events, k, w)
    decreases |events|
  {
    hide Initial, Inv, Step, WriterInv, Coherent, IsWholeFile, FileHistory;
    if events == [] {
      NobodyHasReplaced(t, s, w);
      assert false;
    } else {
      var (last, e) := (|events| - 1, events[|events| - 1]);
      var before := Run(t, s, events[..last]);
      LosersStayLosers(t, before, e, w);
      if before.writers[w].pc.Replaced? {
        SuccessPutsTheText(t, s, events[..last], w);
        var k :| 0 <= k < last && PutsItsText(t, s, events[..last], k, w);
        assert events[..last][..k + 1] == events[..k + 1];
        assert PutsItsText(t, s, events, k, w);
      } else {
        RunKeepsInv(t, s, events[..last]);
        InvSays(t, s.fs, before, w);
        RunKeepsFileHistory(t, s, events[..last], w);
        StepOfWriter(t, before, w, e.answer);
        RenamePutsTheText(t, before, w, e.answer);
        assert events[..last + 1] == events;
        assert PutsItsText(t, s, events, last, w);
      }
    }
  }

  lemma NobodyHasReplaced(t: string, s: State, w: nat)
    requires Initial(t, s) && w < |s.writers|
    ensures Run(t, s, []).writers[w].pc == Opening(0)
  {}

  /** After as many of its own calls as it can need, a writer has put its whole text at
      the target, unless one of these calls went wrong. */
  lemma WritersSucceedUnlessACallGoesWrong(t: string, s: State, events: seq<Event>, w: nat)
    requires Initial(t, s) && w < |s.writers| && CallsOf(w, events) >= |s.writers[w].contents| + 20
    ensures Run(t, s, events).writers[w].pc.Replaced? <==> !SomeCallGoesWrong(t, s, events, w)
    ensures !SomeCallGoesWrong(t, s, events, w) ==> exists k :: 0 <= k < |events| && PutsItsText(t, s, events, k, w)
  {
    hide Initial, SomeCallGoesWrong, PutsItsText, Run;
    EveryWriterFinishes(t, s, events, w);
    FailsIffACallGoesWrong(t, s, events, w);
    if Run(t, s, events).writers[w].pc.Replaced? {
      SuccessPutsTheText(t, s, events, w);
    }
  }

  // ----- why a read fails -----

  predicate Returned(r: Reader) {
    r.pc.ReadOk? || r.pc.ReadErr?
  }

  function ReadsOf(r: nat, events: seq<Event>): nat
    decreases |events|
  {
    if events == [] then 0
    else ReadsOf(r, events[..|events| - 1])
         + (if events[|events| - 1].ReaderCall? && events[|events| - 1].who == r then 1 else 0)
  }

  /** What the name stands for, if it stands for anything. */
  function KindOf(fs: FileSystem, name: string): Option<Kind> {
    if name in fs.names && fs.names[name] in fs.inodes then Some(fs.inodes[fs.names[name]].kind) else None
  }

  /** Call `k` is the `lstat`, the `open` or a later call of reader `r`, which has not
      returned yet. */
  ghost predicate ReadCall(t: string, s: State, events: seq<Event>, k: nat, r: nat)
    requires k < |events| && r < |s.readers|
  {
    events[k].ReaderCall? && events[k].who == r && !Returned(Run(t, s, events[..k]).readers[r])
  }

  /** The kernel refuses the call, or it is the `open`, and nothing or a link is there. */
  ghost predicate ReadGoesWrong(t: string, s: State, events: seq<Event>, k: nat, r: nat)
    requires k < |events| && r < |s.readers|
  {
    && ReadCall(t, s, events, k, r)
    && (|| events[k].answer.Fault?
        || (ReadsOf(r, events[..k]) == 1 && KindOf(Run(t, s, events[..k]).fs, t) in {None, Some(Link)}))
  }

  /** It is the `lstat` or the `open`, and something other than a file is there. */
  ghost predicate FindsNoFile(t: string, s: State, events: seq<Event>, k: nat, r: nat)
    requires k < |events| && r < |s.readers|
  {
    && ReadCall(t, s, events, k, r) && ReadsOf(r, events[..k]) <= 1
    && KindOf(Run(t, s, events[..k]).fs, t) !in {None, Some(Regular)}
  }

  ghost predicate SomeReadGoesWrong(t: string, s: State, events: seq<Event>, r: nat)
    requires r < |s.readers|
  {
    exists k :: 0 <= k < |events| && ReadGoesWrong(t, s, events, k, r)
  }

  ghost predicate SomeCallFindsNoFile(t: string, s: State, events: seq<Event>, r: nat)
    requires r < |s.readers|
  {
    exists k :: 0 <= k < |events| && FindsNoFile(t, s, events, k, r)
  }

  lemma ReadCausesGrow(t: string, s: State, events: seq<Event>, r: nat)
    requires r < |s.readers| && events != []
    ensures var last := |events| - 1;
            && (SomeReadGoesWrong(t, s, events, r) <==> SomeReadGoesWrong(t, s, events[..last], r) || ReadGoesWrong(t, s, events, last, r))
            && (SomeCallFindsNoFile(t, s, events, r) <==> SomeCallFindsNoFile(t, s, events[..last], r) || FindsNoFile(t, s, events, last, r))
  {
    hide Run, ReadsOf, KindOf;
    var front := events[..|events| - 1];
    assert forall k :: 0 <= k < |front| ==> front[..k] == events[..k] && front[k] == events[k];
    if k :| 0 <= k < |front| && ReadGoesWrong(t, s, front, k, r) {
      assert ReadGoesWrong(t, s, events, k, r);
    }
    if k :| 0 <= k < |events| && ReadGoesWrong(t, s, events, k, r) {
      assert k < |front| ==> ReadGoesWrong(t, s, front, k, r);
    }
    if k :| 0 <= k < |front| && FindsNoFile(t, s, front, k, r) {
      assert FindsNoFile(t, s, events, k, r);
    }
    if k :| 0 <= k < |events| && FindsNoFile(t, s, events, k, r) {
      assert k < |front| ==> FindsNoFile(t, s, front, k, r);
    }
  }

  /** Which call a reader is at, and what it has met so far. */
  ghost predicate ReadHistory(fs: FileSystem, me: Reader, calls: nat, wrong: bool, noFile: bool) {
    && (wrong <==> me.pc.ReadErr? && me.pc.error == IoError)
    && match me.pc
       case Statting => calls == 0
       case OpeningRead => calls == 1
       case CheckingHandle(ino) => calls == 2 && ino in fs.inodes && (fs.inodes[ino].kind != Regular ==> noFile)
       case Reading(ino, _, _) => calls >= 3 && ino in fs.inodes
       case ReadOk(_, _, _) => true
       case ReadErr(error, _) => error == NotRegular ==> noFile
  }

  lemma ReadCallKeepsHistory(t: string, fs: FileSystem, me: Reader, answer: Answer, calls: nat, noFile: bool)
    requires Coherent(fs) && !Returned(me) && ReadHistory(fs, me, calls, false, noFile)
    ensures ReadHistory(fs, me.(pc := ReadPc(t, fs, me, answer)), calls + 1,
              answer.Fault? || (calls == 1 && KindOf(fs, t) in {None, Some(Link)}),
              noFile || (calls <= 1 && KindOf(fs, t) !in {None, Some(Regular)}))
  {}

  lemma OthersKeepReadHistory(t: string, start: FileSystem, s: State, w: nat, answer: Answer, r: nat, calls: nat, wrong: bool, noFile: bool)
    requires Inv(t, start, s) && w < |s.writers| && r < |s.readers| && ReadHistory(s.fs, s.readers[r], calls, wrong, noFile)
    ensures var s' := WriterStep(t, s, w, answer);
            s'.readers == s.readers && ReadHistory(s'.fs, s.readers[r], calls, wrong, noFile)
  {
    var me := s.readers[r];
    assert WriterInv(t, s.fs, s.writers, w) && ReaderInv(s.fs, s.bound, me);
    WriterTouchesOnlyItsOwn(t, s, w, answer);
    if me.pc.CheckingHandle? || me.pc.Reading? {
      VersionsAreFinal(t, start, s, w, answer, me.pc.ino);
    }
  }

  lemma InvIsCoherent(t: string, start: FileSystem, s: State)
    requires Inv(t, start, s)
    ensures Coherent(s.fs)
  {}

  lemma ReturnedStays(t: string, fs: FileSystem, me: Reader, answer: Answer, calls: nat, wrong: bool, noFile: bool)
    requires Returned(me) && ReadHistory(fs, me, calls, wrong, noFile)
    ensures me.(pc := ReadPc(t, fs, me, answer)) == me && ReadHistory(fs, me, calls + 1, wrong, noFile)
  {}

  lemma NotReturnedNotWrong(fs: FileSystem, me: Reader, calls: nat, wrong: bool, noFile: bool)
    requires !Returned(me) && ReadHistory(fs, me, calls, wrong, noFile)
    ensures !wrong
  {}

  lemma EventKeepsReadHistory(t: string, start: FileSystem, s: State, e: Event, r: nat, calls: nat, wrong: bool, noFile: bool)
    requires Inv(t, start, s) && r < |s.readers| && ReadHistory(s.fs, s.readers[r], calls, wrong, noFile)
    ensures var s' := Step(t, s, e);
            var mine := e.ReaderCall? && e.who == r;
            var live := mine && !Returned(s.readers[r]);
            ReadHistory(s'.fs, s'.readers[r], if mine then calls + 1 else calls,
              wrong || (live && (e.answer.Fault? || (calls == 1 && KindOf(s.fs, t) in {None, Some(Link)}))),
              noFile || (live && calls <= 1 && KindOf(s.fs, t) !in {None, Some(Regular)}))
  {
    hide Inv, ReadHistory, WriterStep, ReadPc, KindOf, Returned;
    var me := s.readers[r];
    if e.WriterCall? && e.who < |s.writers| {
      OthersKeepReadHistory(t, start, s, e.who, e.answer, r, calls, wrong, noFile);
    } else if e.ReaderCall? && e.who == r {
      if Returned(me) {
        ReturnedStays(t, s.fs, me, e.answer, calls, wrong, noFile);
      } else {
        InvIsCoherent(t, start, s);
        NotReturnedNotWrong(s.fs, me, calls, wrong, noFile);
        ReadCallKeepsHistory(t, s.fs, me, e.answer, calls, noFile);
      }
    }
  }

  lemma NothingReadYet(t: string, s: State, r: nat)
    requires Initial(t, s) && r < |s.readers|
    ensures ReadHistory(s.fs, s.readers[r], 0, false, false)
  {}

  lemma {:induction false} RunKeepsReadHistory(t: string, s: State, events: seq<Event>, r: nat)
    requires Initial(t, s) && r < |s.readers|
    ensures var now := Run(t, s, events);
            ReadHistory(now.fs, now.readers[r], ReadsOf(r, events), SomeReadGoesWrong(t, s, events, r), SomeCallFindsNoFile(t, s, events, r))
    decreases |events|
  {
    hide Initial, Inv, ReadHistory, Step, KindOf, Returned;
    if events == [] {
      NothingReadYet(t, s, r);
    } else {
      hide SomeReadGoesWrong, SomeCallFindsNoFile;
      var (last, e) := (|events| - 1, events[|events| - 1]);
      RunKeepsReadHistory(t, s, events[..last], r);
      ReadCausesGrow(t, s, events, r);
      RunKeepsInv(t, s, events[..last]);
      EventKeepsReadHistory(t, s.fs, Run(t, s, events[..last]), e, r, ReadsOf(r, events[..last]),
                            SomeReadGoesWrong(t, s, events[..last], r), SomeCallFindsNoFile(t, s, events[..last], r));
    }
  }

  /** A read ends in an I/O error exactly when the kernel refuses one of its calls or its
      `open` finds nothing or a link, and is refused as no regular file only when its
      `lstat` or its `open` meets something else. Any other read that has returned gives
      the bytes, or finds them too many. */
  lemma ReadsFailOnlyForACause(t: string, s: State, events: seq<Event>, r: nat)
    requires Initial(t, s) && r < |s.readers|
    ensures var pc := Run(t, s, events).readers[r].pc;
            && (pc.ReadErr? && pc.error == IoError <==> SomeReadGoesWrong(t, s, events, r))
            && (pc.ReadErr? && pc.error == NotRegular ==> SomeCallFindsNoFile(t, s, events, r))
  {
    hide Initial, Run, SomeReadGoesWrong, SomeCallFindsNoFile;
    RunKeepsReadHistory(t, s, events, r);
  }

  // ----- the code itself, running among the others -----

  /** How `OpenOptions::create_new` answers. */
  datatype Created = CreatedFile | AlreadyExists | OtherError

  /** One directory all processes share. `log` is the interleaving so far. */
  class Directory {
    const target: string
    ghost const first: State
    ghost var log: seq<Event>
    var s: State

    ghost predicate Valid()
      reads this
    {
      Initial(target, first) && s == Run(target, first, log)
    }

    /** Call `w` is this process, somewhere inside `write_private`. */
    ghost predicate Mine(w: nat, pc: WriterPc)
      reads this
    {
      Valid() && w < |s.writers| && s.writers[w].pc == pc
    }

    /** Any number of calls of other processes, in any order. */
    method Others(w: nat)
      requires Valid() && w < |s.writers|
      modifies this`s, this`log
      ensures Valid() && old(log) <= log && |s.writers| == |old(s).writers| && s.writers[w] == old(s).writers[w]
    {
      var calls: nat := *;
      while calls > 0
        invariant Valid() && old(log) <= log && |s.writers| == |old(s).writers| && s.writers[w] == old(s).writers[w]
      {
        var e: Event := *;
        if !(e.WriterCall? && e.who == w) {
          Perform(e);
        }
        calls := calls - 1;
      }
    }

    method Perform(e: Event)
      requires Valid()
      modifies this`s, this`log
      ensures Valid() && log == old(log) + [e] && s == Step(target, old(s), e)
    {
      s := Step(target, s, e);
      log := log + [e];
      assert log[..|log| - 1] == old(log);
    }

    method CreateNew(w: nat, ghost attempt: nat, tmp: string) returns (r: Created)
      requires Mine(w, Opening(attempt)) && tmp == TempName(target, s.writers[w].pid, attempt)
      modifies this`s, this`log
      ensures Valid() && old(log) <= log
      ensures exists answer :: s == OpenStep(target, old(s), w, attempt, answer)
                && r == if answer.Fault? then OtherError else if tmp in old(s).fs.names then AlreadyExists else CreatedFile
    {
      var answer: Answer := *;
      r := if answer.Fault? then OtherError else if tmp in s.fs.names then AlreadyExists else CreatedFile;
      Perform(WriterCall(w, answer));
    }

    /** Any of `write`, `fsync`, `rename` and `unlink`; `ok` is the result. */
    method Call(w: nat) returns (ok: bool)
      requires Valid() && w < |s.writers| && !s.writers[w].pc.Opening?
      modifies this`s, this`log
      ensures Valid() && old(log) <= log
      ensures exists answer :: s == WriterStep(target, old(s), w, answer)
      ensures ok <==> !s.writers[w].pc.Cleaning? && !s.writers[w].pc.Failed?
    {
      var answer: Answer := *;
      Perform(WriterCall(w, answer));
      ok := !s.writers[w].pc.Cleaning? && !s.writers[w].pc.Failed?;
    }

    method Sync(w: nat) returns (ok: bool)
      requires Valid() && w < |s.writers| && s.writers[w].pc.Writing? && s.writers[w].pc.written == |s.writers[w].contents|
      modifies this`s, this`log
      ensures Valid() && old(log) <= log && w < |s.writers| && s.writers[w].contents == old(s).writers[w].contents
      ensures if ok then s.writers[w].pc.Renaming? else s.writers[w].pc.Cleaning?
    {
      ok := Call(w);
    }

    method Rename(w: nat) returns (ok: bool)
      requires Valid() && w < |s.writers| && s.writers[w].pc.Renaming?
      modifies this`s, this`log
      ensures Valid() && old(log) <= log && w < |s.writers| && s.writers[w].contents == old(s).writers[w].contents
      ensures if ok then s.writers[w].pc.Replaced? else s.writers[w].pc.Cleaning?
    {
      ok := Call(w);
    }

    /** The result of this `remove_file` is ignored. */
    method Unlink(w: nat)
      requires Valid() && w < |s.writers| && s.writers[w].pc.Cleaning?
      modifies this`s, this`log
      ensures Valid() && old(log) <= log && w < |s.writers| && s.writers[w].contents == old(s).writers[w].contents
      ensures s.writers[w].pc.Failed?
    {
      var _ := Call(w);
    }

    /** The retry loop: exclusive creates until one succeeds, at most 17 of them. */
    method OpenTemp(w: nat) returns (ok: bool)
      requires Mine(w, Opening(0))
      modifies this`s, this`log
      ensures Valid() && old(log) <= log && w < |s.writers| && s.writers[w].contents == old(s).writers[w].contents
      ensures ok ==> s.writers[w].pc.Writing? && s.writers[w].pc.written == 0
      ensures !ok ==> s.writers[w].pc == Failed(None)
    {
      var me := s.writers[w];
      var attempt := 0;
      while true
        invariant old(log) <= log && attempt <= MAX_RETRIES
        invariant Mine(w, Opening(attempt)) && s.writers[w].contents == me.contents && s.writers[w].pid == me.pid
        decreases MAX_RETRIES - attempt
      {
        Others(w);
        var tmp := TempName(target, me.pid, attempt);
        var r := CreateNew(w, attempt, tmp);
        match r {
          case CreatedFile => return true;
          case AlreadyExists =>
            if attempt < MAX_RETRIES {
              attempt := attempt + 1;
            } else {
              return false;
            }
          case OtherError => return false;
        }
      }
    }

    /** `write_private`: open, then write, sync, rename and cleanup, with the
        others running between any two calls. It succeeds exactly when none of its
        calls goes wrong, and then its inode is whole, synced and private, and one of
        its calls put it at the target. */
    method WritePrivate(w: nat) returns (ok: bool)
      requires Mine(w, Opening(0))
      modifies this`s, this`log
      ensures Valid() && old(log) <= log && w < |s.writers| && s.writers[w].contents == old(s).writers[w].contents
      ensures ok ==> s.writers[w].pc.Replaced? && s.writers[w].pc.ino in s.bound && IsComplete(s.fs, s.writers, w, s.writers[w].pc.ino)
      ensures !ok ==> s.writers[w].pc.Failed?
      ensures w < |first.writers| && (ok <==> !SomeCallGoesWrong(target, first, log, w))
      ensures ok ==> exists k :: 0 <= k < |log| && PutsItsText(target, first, log, k, w)
    {
      hide SomeCallGoesWrong, PutsItsText;
      ok := OpenTemp(w);
      if !ok {
        FailsIffACallGoesWrong(target, first, log, w);
        return;
      }
      ok := WriteAll(w);
      if ok {
        Others(w);
        ok := Sync(w);
      }
      if ok {
        Others(w);
        ok := Rename(w);
      }
      if !ok {
        Others(w);
        Unlink(w);
      } else {
        RunKeepsInv(target, first, log);
        assert WriterInv(target, s.fs, s.writers, w);
        SuccessPutsTheText(target, first, log, w);
      }
      FailsIffACallGoesWrong(target, first, log, w);
    }

    method WriteAll(w: nat) returns (ok: bool)
      requires Valid() && w < |s.writers| && s.writers[w].pc.Writing? && s.writers[w].pc.written == 0
      modifies this`s, this`log
      ensures Valid() && old(log) <= log && w < |s.writers| && s.writers[w].contents == old(s).writers[w].contents
      ensures ok ==> s.writers[w].pc.Writing? && s.writers[w].pc.written == |s.writers[w].contents|
      ensures !ok ==> s.writers[w].pc.Cleaning?
    {
      var text := s.writers[w].contents;
      while s.writers[w].pc.written < |text|
        invariant Valid() && old(log) <= log && w < |s.writers| && s.writers[w].contents == text
        invariant s.writers[w].pc.Writing? && s.writers[w].pc.written <= |text|
        decreases |text| - s.writers[w].pc.written
      {
        Others(w);
        ok := Call(w);
        if !ok {
          return;
        }
      }
      ok := true;
    }

    // ----- a reader among the others -----

    /** Any number of calls of processes other than reader `r`. */
    method OthersThanReader(r: nat)
      requires Valid() && r < |s.readers|
      modifies this`s, this`log
      ensures Valid() && old(log) <= log && r < |s.readers| && s.readers[r] == old(s).readers[r]
    {
      var calls: nat := *;
      while calls > 0
        invariant Valid() && old(log) <= log && r < |s.readers| && s.readers[r] == old(s).readers[r]
      {
        var e: Event := *;
        if !(e.ReaderCall? && e.who == r) {
          Perform(e);
        }
        calls := calls - 1;
      }
    }

    /** The next of `lstat`, `open`, `fstat` and `read`, after any calls of others;
        `going` says that the reader has not returned yet. */
    method ReaderCalls(r: nat) returns (going: bool)
      requires Valid() && r < |s.readers|
      modifies this`s, this`log
      ensures Valid() && old(log) <= log && r < |s.readers|
      ensures exists fs: FileSystem, answer: Answer ::
                s.readers[r] == old(s).readers[r].(pc := ReadPc(target, fs, old(s).readers[r], answer))
      ensures going <==> !s.readers[r].pc.ReadOk? && !s.readers[r].pc.ReadErr?
    {
      OthersThanReader(r);
      var answer: Answer := *;
      ghost var fs := s.fs;
      Perform(ReaderCall(r, answer));
      assert s.readers[r] == old(s).readers[r].(pc := ReadPc(target, fs, old(s).readers[r], answer));
      going := !s.readers[r].pc.ReadOk? && !s.readers[r].pc.ReadErr?;
    }

    /** `reject_non_regular`, `open_regular` and the capped read: whatever happens to
        the name in between, the result is one whole version or an error. */
    method ReadFile(r: nat) returns (result: Result<(Bytes, Mode), ReadError>)
      requires Valid() && r < |s.readers| && s.readers[r].pc == Statting
      modifies this`s, this`log
      ensures Valid() && old(log) <= log && r < |s.readers|
      ensures match result
              case Ok((bytes, bits)) => exists ino :: s.readers[r].pc == ReadOk(ino, bytes, bits)
              case Err(e) => exists handle :: s.readers[r].pc == ReadErr(e, handle)
      ensures r < |first.readers| && (result == Err(IoError) <==> SomeReadGoesWrong(target, first, log, r))
      ensures result == Err(NotRegular) ==> SomeCallFindsNoFile(target, first, log, r)
      ensures SawOneVersion(target, first.fs, s.writers, s.readers[r])
    {
      hide SomeReadGoesWrong, SomeCallFindsNoFile;
      ghost var me := s.readers[r];
      var going := ReaderCalls(r);
      if going {
        going := ReaderCalls(r);
      }
      if going {
        going := ReaderCalls(r);
      }
      while going
        invariant Valid() && old(log) <= log && r < |s.readers|
        invariant s.readers[r].how == me.how && s.readers[r].max == me.max
        invariant going ==> s.readers[r].pc.Reading? && |s.readers[r].pc.buf| <= Limit(me)
        invariant !going ==> s.readers[r].pc.ReadOk? || s.readers[r].pc.ReadErr?
        decreases going, if going then Limit(me) - |s.readers[r].pc.buf| else 0
      {
        going := ReaderCalls(r);
      }
      ReaderGetsOneVersion(target, first, log, r);
      ReadsFailOnlyForACause(target, first, log, r);
      match s.readers[r].pc {
        case ReadOk(_, bytes, bits) => result := Ok((bytes, bits));
        case ReadErr(error, _) => result := Err(error);
      }
    }
  }
}
