/** The tail of one append-only file across crashes and restarts: the follower, the consumer of logmining/file.go that
    records LastPosition in memory, and logmining/directory.go that persists it and resumes from it. */
module Checkpoint {
  import opened Bits
  import opened Follower

  datatype Stored = NoRecord | Record(offset: nat)

  /** A line handed to the consumer, and where it starts in the file. */
  datatype Receipt = Receipt(at: nat, text: seq<byte>)

  datatype System = System(
    file: seq<byte>,
    up: bool,             // the file is being followed by a running process
    f: Follower,
    busy: bool,           // the consumer holds a line it has not checkpointed
    memory: nat,          // f.lastPosition.Offset
    stored: Stored,       // the document of this file in the position library
    log: set<Receipt>)    // every line received in any run so far

  datatype Act =
    | Grow(more: seq<byte>)                 // another process appends
    | Loop(event: Event)                    // a step of the follower
    | Receive                               // the rendezvous on the line channel
    | Checkpoint                            // after the hand-off: lastPosition.Offset = tail.Offset()
    | Flush(ok: bool)                       // the two-second flush, which may fail
    | Close(ok: bool)                       // the graceful close of track
    | Forget(ok: bool)                      // removeFile: the document is deleted
    | Crash
    // addFile, with storage calls and an open that may fail
    | Restart(found: bool, saved: bool, opens: bool)

  function ReadOf(file: seq<byte>, f: Follower, e: Event): seq<byte> {
    if e.Fill? && f.pos + e.k <= |file| then file[f.pos..f.pos + e.k] else []
  }

  predicate CanAct(s: System, a: Act) {
    match a
    case Grow(_) => true
    case Loop(e) => s.up && s.f.pc != Closed && !e.Sent? && Enabled(|s.file|, s.f, e)
    case Receive => s.up && s.f.pc.Sending? && !s.busy
    case Checkpoint => s.up && s.busy
    case Flush(_) => s.up
    case Close(_) => s.up && !s.busy
    case Forget(_) => s.up
    case Crash => s.up
    case Restart(_, _, _) => !s.up
  }

  /** addFile: an unreadable, missing or zero record starts over and is written back; any other is resumed. A file
      that cannot be opened is not followed, but a record written for it stays. */
  function Restarted(s: System, found: bool, saved: bool, opens: bool): System {
    if found && s.stored.Record? && s.stored.offset != 0 then
      if opens then s.(up := true, f := Opened(s.stored.offset), busy := false, memory := s.stored.offset) else s
    else if !saved then s
    else if opens then s.(up := true, f := Opened(0), busy := false, memory := 0, stored := Record(0))
    else s.(stored := Record(0))
  }

  function Next(s: System, a: Act): System {
    match a
    case Grow(more) => s.(file := s.file + more)
    case Loop(e) => s.(f := Apply(|s.file|, s.f, e, ReadOf(s.file, s.f, e)))
    case Receive =>
      if !s.f.pc.Sending? then s
      else s.(f := Apply(|s.file|, s.f, Sent, []), busy := true,
              log := s.log + {Receipt(Cursor(s.f), s.f.pc.text)})
    case Checkpoint => s.(memory := s.f.offset, busy := false)
    case Flush(ok) => if ok then s.(stored := Record(s.memory)) else s
    case Close(ok) => s.(up := false, stored := if ok then Record(s.memory) else s.stored)
    case Forget(ok) => s.(up := false, stored := if ok then NoRecord else s.stored)
    case Crash => s.(up := false)
    case Restart(found, saved, opens) => Restarted(s, found, saved, opens)
  }

  ghost predicate IsHistory(s: System, acts: seq<Act>)
    decreases |acts|
  {
    acts == [] || (CanAct(s, acts[0]) && IsHistory(Next(s, acts[0]), acts[1..]))
  }

  ghost function After(s: System, acts: seq<Act>): System
    decreases |acts|
  {
    if acts == [] then s else After(Next(s, acts[0]), acts[1..])
  }

  /** Before the first run: whatever the file holds, nothing is stored. */
  function Initial(file: seq<byte>): System {
    System(file, false, Opened(0).(pc := Closed), false, 0, NoRecord, {})
  }

  // ---------- What has been read is the file, NULs included ----------

  /** The bytes between the start of the generation and the handle are the ledger and what is pending. */
  ghost predicate Reads(file: seq<byte>, f: Follower) {
    && Accounted(f) && f.pos <= |file|
    && file[f.start..f.pos] == Flatten(f.ledger) + Pending(f)
    && Newline(f.frag) == |f.frag|
    && (f.pc.Sending? ==> Newline(f.pc.text) == |f.pc.text|)
  }

  lemma ReadsFill(file: seq<byte>, f: Follower, k: nat)
    requires Reads(file, f) && Enabled(|file|, f, Fill(k)) && f.pc != Closed
    ensures Reads(file, Apply(|file|, f, Fill(k), file[f.pos..f.pos + k]))
  {
    hide Flatten, LastNul, Newline, Window;
    var read := file[f.pos..f.pos + k];
    StepAccounted(|file|, f, Fill(k), read);
    assert file[f.start..f.pos + k] == file[f.start..f.pos] + read;
    Assoc3(Flatten(f.ledger), Pending(f), read);
  }

  lemma Assoc3<T>(a: seq<T>, b: seq<T>, c: seq<T>)
    ensures a + b + c == a + (b + c)
  {}

  lemma SubSlice<T>(s: seq<T>, lo: nat, hi: nat, m: nat, n: nat)
    requires lo <= hi <= |s| && m <= n <= hi - lo
    ensures s[lo..hi][m..n] == s[lo + m..lo + n]
  {
    var a, b := s[lo..hi][m..n], s[lo + m..lo + n];
    assert |a| == |b| && forall i :: 0 <= i < |a| ==> a[i] == b[i];
  }

  lemma CutAt<T>(s: seq<T>, n: nat)
    requires n <= |s|
    ensures s == s[..n] + s[n..]
  {}

  lemma ReadsPeeked(file: seq<byte>, f: Follower)
    requires Reads(file, f) && f.pc == Peeking
    ensures Reads(file, Apply(|file|, f, Peeked, []))
  {
    PeekedAccounted(|file|, f);
    var i := LastNul(Window(f.buf));
    if i > 0 {
      FlattenSnoc(f.ledger, Discarded(f.buf[..i + 1]));
      CutAt(f.buf, i + 1);
      Assoc3(Flatten(f.ledger), f.buf[..i + 1], f.buf[i + 1..]);
      NothingPending(f);
      NothingPending(Apply(|file|, f, Peeked, []));
    }
  }

  lemma NothingPending(f: Follower)
    requires !f.pc.Sending? && f.frag == []
    ensures Pending(f) == f.buf
  {}

  lemma LinePending(f: Follower)
    requires f.pc.Sending? && f.frag == []
    ensures Pending(f) == f.pc.text + [NL] + f.buf
  {
    assert f.pc.text + [NL] + [] == f.pc.text + [NL];
  }

  lemma ReadsSpilled(file: seq<byte>, f: Follower)
    requires Reads(file, f) && Enabled(|file|, f, Spilled)
    ensures Reads(file, Apply(|file|, f, Spilled, []))
  {
    StepAccounted(|file|, f, Spilled, []);
    NewlineConcat(f.frag, f.buf);
    assert f.frag + f.buf + [] == f.frag + f.buf;
  }

  lemma LineOfBuffer(frag: seq<byte>, buf: seq<byte>)
    requires Newline(frag) == |frag| && Newline(buf) < |buf|
    ensures var text := frag + buf[..Newline(buf)];
      Newline(text) == |text| && text + [NL] + buf[Newline(buf) + 1..] == frag + buf
  {
    var j := Newline(buf);
    NewlineIsFirst(buf);
    NewlineAt(buf[..j], j);
    NewlineConcat(frag, buf[..j]);
    assert buf == buf[..j] + [NL] + buf[j + 1..];
  }

  lemma ReadsFound(file: seq<byte>, f: Follower)
    requires Reads(file, f) && Enabled(|file|, f, Found)
    ensures Reads(file, Apply(|file|, f, Found, []))
  {
    StepAccounted(|file|, f, Found, []);
    LineOfBuffer(f.frag, f.buf);
    LinePending(Apply(|file|, f, Found, []));
    NothingSent(f);
  }

  /** At the end of the file, what is left ahead of the cursor is a partial line. */
  lemma ReadsHitEnd(file: seq<byte>, f: Follower)
    requires Reads(file, f) && Enabled(|file|, f, HitEnd)
    ensures Reads(file, Apply(|file|, f, HitEnd, []))
    ensures Apply(|file|, f, HitEnd, []).offset == Cursor(f) <= |file|
    ensures Newline(file[Cursor(f)..]) == |file| - Cursor(f)
  {
    StepAccounted(|file|, f, HitEnd, []);
    NewlineConcat(f.frag, f.buf);
    NothingSent(f);
    Halves(file, f.start, f.pos, Flatten(f.ledger), f.frag + f.buf);
    assert file[Cursor(f)..] == file[Cursor(f)..f.pos];
    assert Flatten(f.ledger) + [] == Flatten(f.ledger);
  }

  lemma NothingSent(f: Follower)
    requires !f.pc.Sending?
    ensures Pending(f) == f.frag + f.buf
  {
    assert [] + f.frag == f.frag;
  }

  lemma Halves(file: seq<byte>, lo: nat, hi: nat, a: seq<byte>, b: seq<byte>)
    requires lo <= hi <= |file| && file[lo..hi] == a + b
    ensures file[lo..lo + |a|] == a && file[lo + |a|..hi] == b
  {
    SubSlice(file, lo, hi, 0, |a|);
    SubSlice(file, lo, hi, |a|, hi - lo);
    assert (a + b)[..|a|] == a && (a + b)[|a|..] == b;
  }

  lemma LineRead(file: seq<byte>, f: Follower)
    requires Reads(file, f) && f.pc.Sending?
    ensures file[f.start..f.pos] == Flatten(f.ledger) + (f.pc.text + [NL] + f.buf)
  {
    LinePending(f);
  }

  lemma ReadsSentOn(file: seq<byte>, f: Follower)
    requires Reads(file, f) && f.pc.Sending?
    ensures Reads(file, Apply(|file|, f, Sent, []))
  {
    StepAccounted(|file|, f, Sent, []);
    FlattenSnoc(f.ledger, Line(f.pc.text));
    NothingPending(Apply(|file|, f, Sent, []));
    LineRead(file, f);
    Assoc3(Flatten(f.ledger), f.pc.text + [NL], f.buf);
  }

  /** The line received is the one at the cursor. */
  lemma ReadsSent(file: seq<byte>, f: Follower)
    requires Reads(file, f) && f.pc.Sending?
    ensures Reads(file, Apply(|file|, f, Sent, []))
    ensures Cursor(f) + |f.pc.text| < |file| && file[Cursor(f) + |f.pc.text|] == NL
    ensures file[Cursor(f)..Cursor(f) + |f.pc.text|] == f.pc.text
  {
    hide Apply, Newline, Flatten, Pending;
    ReadsSentOn(file, f);
    LineRead(file, f);
    LineBehind(file, f.start, f.pos, Flatten(f.ledger), f.pc.text, f.buf);
  }

  lemma LineBehind(file: seq<byte>, lo: nat, hi: nat, done: seq<byte>, text: seq<byte>, rest: seq<byte>)
    requires lo <= hi <= |file| && file[lo..hi] == done + (text + [NL] + rest)
    ensures var at := lo + |done|;
      at + |text| < |file| && file[at..at + |text|] == text && file[at + |text|] == NL
  {
    Halves(file, lo, hi, done, text + [NL] + rest);
    Halves(file, lo + |done|, hi, text + [NL], rest);
    LineAt(file, lo + |done|, text);
  }

  lemma LineAt(file: seq<byte>, at: nat, text: seq<byte>)
    requires at + |text| < |file| && file[at..at + |text| + 1] == text + [NL]
    ensures file[at..at + |text|] == text && file[at + |text|] == NL
  {
    assert file[at + |text|] == file[at..at + |text| + 1][|text|];
    assert file[at..at + |text|] == file[at..at + |text| + 1][..|text|];
  }

  /** No step of the loop loses, repeats or reorders a byte of an append-only file. */
  lemma ReadsStep(file: seq<byte>, f: Follower, e: Event)
    requires Reads(file, f) && f.pc != Closed && Enabled(|file|, f, e) && !e.Stopped?
    ensures Reads(file, Apply(|file|, f, e, ReadOf(file, f, e)))
  {
    match e {
      case Fill(k) => ReadsFill(file, f, k);
      case Peeked => ReadsPeeked(file, f);
      case Spilled => ReadsSpilled(file, f);
      case Found => ReadsFound(file, f);
      case HitEnd => ReadsHitEnd(file, f);
      case Sent => ReadsSent(file, f);
      case Written => assert f.offset <= |file|;
      case Ticked =>
      case Reopened => assert file[0..0] == [];
    }
  }

  lemma ReadsGrown(file: seq<byte>, more: seq<byte>, f: Follower)
    requires Reads(file, f)
    ensures Reads(file + more, f)
  {
    assert (file + more)[f.start..f.pos] == file[f.start..f.pos];
  }

  /** A line without a newline inside, or a stretch of two to 1024 bytes that ends in a NUL. */
  predicate WellCut(c: Chunk) {
    match c
    case Line(text) => Newline(text) == |text|
    case Discarded(bytes) => 2 <= |bytes| <= PEEK_SIZE && bytes[|bytes| - 1] == NUL
  }

  predicate AllWellCut(ledger: seq<Chunk>) {
    forall c :: c in ledger ==> WellCut(c)
  }

  /** The invariant of every history of an append-only file, NULs or not. */
  ghost predicate Tracked(s: System) {
    && (s.stored.Record? ==> s.stored.offset <= |s.file|)
    && (s.up ==> s.memory <= |s.file| && s.f.offset <= |s.file|)
    && (s.up && s.f.pc != Closed ==> Reads(s.file, s.f) && AllWellCut(s.f.ledger))
  }

  lemma CutMore(ledger: seq<Chunk>, c: Chunk)
    requires AllWellCut(ledger) && WellCut(c)
    ensures AllWellCut(ledger + [c])
  {}

  lemma StepCuts(file: seq<byte>, f: Follower, e: Event)
    requires Reads(file, f) && AllWellCut(f.ledger) && f.pc != Closed && Enabled(|file|, f, e) && !e.Stopped?
    ensures AllWellCut(Apply(|file|, f, e, ReadOf(file, f, e)).ledger)
  {
    if e == Peeked {
      var i := LastNul(Window(f.buf));
      LastNulIsLast(Window(f.buf));
      if i > 0 {
        CutMore(f.ledger, Discarded(f.buf[..i + 1]));
      }
    } else if e == Sent {
      CutMore(f.ledger, Line(f.pc.text));
    }
  }

  lemma TrackedStep(s: System, a: Act)
    requires Tracked(s) && CanAct(s, a)
    ensures Tracked(Next(s, a))
  {
    if s.up && s.f.pc != Closed {
      if a.Grow? {
        ReadsGrown(s.file, a.more, s.f);
      } else if (a.Loop? && a.event != Stopped) || a.Receive? {
        var e := if a.Loop? then a.event else Sent;
        ReadsStep(s.file, s.f, e);
        StepCuts(s.file, s.f, e);
        OffsetInFile(s.file, s.f, e);
      }
    }
  }

  lemma OffsetInFile(file: seq<byte>, f: Follower, e: Event)
    requires Reads(file, f) && f.offset <= |file| && f.pc != Closed && Enabled(|file|, f, e)
    ensures Apply(|file|, f, e, ReadOf(file, f, e)).offset <= |file|
  {
    if e == HitEnd {
      ReadsHitEnd(file, f);
    }
  }

  lemma {:induction false} TrackedHistory(s: System, acts: seq<Act>)
    requires Tracked(s) && IsHistory(s, acts)
    ensures Tracked(After(s, acts))
    decreases |acts|
  {
    if acts != [] {
      TrackedStep(s, acts[0]);
      TrackedHistory(Next(s, acts[0]), acts[1..]);
    }
  }

  /** Conservation over every history of an append-only file, NULs included: what lies between the start of the
      generation and the cursor is exactly the lines received, each with its newline, and the stretches the NUL
      loop discarded, in order; at the select, that is everything up to t.offset. */
  lemma ConservedOverHistories(file: seq<byte>, acts: seq<Act>)
    requires IsHistory(Initial(file), acts)
    ensures var s := After(Initial(file), acts);
      s.up && s.f.pc != Closed ==>
        && s.f.start <= Cursor(s.f) <= |s.file|
        && s.file[s.f.start..Cursor(s.f)] == Flatten(s.f.ledger) && AllWellCut(s.f.ledger)
        && (s.f.pc == Waiting ==> s.f.offset == Cursor(s.f) == s.f.pos)
  {
    TrackedHistory(Initial(file), acts);
    var s := After(Initial(file), acts);
    hide After, IsHistory, Flatten, Newline, AllWellCut;
    if s.up && s.f.pc != Closed {
      Halves(s.file, s.f.start, s.f.pos, Flatten(s.f.ledger), Pending(s.f));
    }
  }

  // ---------- The checkpoint can go back ----------

  ghost predicate Ordered(s: System) {
    s.memory <= Cursor(s.f) && (s.f.offset == 0 || s.memory <= s.f.offset <= Cursor(s.f))
  }

  lemma CursorAdvances(file: seq<byte>, f: Follower, e: Event)
    requires Reads(file, f) && f.pc != Closed && Enabled(|file|, f, e)
    requires !e.Reopened? && !e.Stopped?
    ensures var g := Apply(|file|, f, e, ReadOf(file, f, e));
      Cursor(g) >= Cursor(f) && (g.offset == f.offset || g.offset == Cursor(g) == Cursor(f))
  {
    if e == HitEnd {
      ReadsHitEnd(file, f);
    } else if e == Peeked {
      var i := LastNul(Window(f.buf));
      if i > 0 {
        FlattenSnoc(f.ledger, Discarded(f.buf[..i + 1]));
      }
    } else if e == Sent {
      FlattenSnoc(f.ledger, Line(f.pc.text));
    }
  }

  /** Acts of one run that does not reopen its file. */
  predicate Steady(a: Act) {
    !a.Restart? && !(a.Loop? && a.event.Reopened?)
  }

  lemma OrderedStep(s: System, a: Act)
    requires Tracked(s) && Ordered(s) && CanAct(s, a) && Steady(a)
    ensures Ordered(Next(s, a))
  {
    if a.Loop? && a.event != Stopped {
      CursorAdvances(s.file, s.f, a.event);
    } else if a.Receive? {
      CursorAdvances(s.file, s.f, Sent);
    }
  }

  lemma {:induction false} OrderedHistory(s: System, acts: seq<Act>)
    requires Tracked(s) && Ordered(s) && IsHistory(s, acts)
    requires forall a :: a in acts ==> Steady(a)
    ensures Ordered(After(s, acts))
    decreases |acts|
  {
    if acts != [] {
      assert acts[0] in acts;
      OrderedStep(s, acts[0]);
      TrackedStep(s, acts[0]);
      OrderedHistory(Next(s, acts[0]), acts[1..]);
    }
  }

  /** Throughout a run that does not reopen its file, however it was resumed, a checkpoint moves the recorded offset
      backwards exactly when t.offset is still 0 (no end of file met yet) and something was recorded before. */
  lemma CheckpointRegresses(s: System, restart: Act, acts: seq<Act>)
    requires Tracked(s) && restart.Restart? && CanAct(s, restart) && Next(s, restart).up
    requires IsHistory(Next(s, restart), acts) && forall a :: a in acts ==> Steady(a)
    requires CanAct(After(Next(s, restart), acts), Checkpoint)
    ensures var t := After(Next(s, restart), acts);
      Next(t, Checkpoint).memory < t.memory <==> t.f.offset == 0 && t.memory > 0
  {
    TrackedStep(s, restart);
    OrderedHistory(Next(s, restart), acts);
  }

  lemma NoNulHere(b: seq<byte>)
    requires |b| < PEEK_SIZE && NulFree(b)
    ensures LastNul(Window(b)) == -1
  {
    LastNulIsLast(b);
  }

  lemma HistoryCons(s: System, a: Act, rest: seq<Act>)
    requires CanAct(s, a) && IsHistory(Next(s, a), rest)
    ensures IsHistory(s, [a] + rest) && After(s, [a] + rest) == After(Next(s, a), rest)
  {
    assert ([a] + rest)[1..] == rest;
  }

  /** The last steps of the run below: a line in the buffer is found, received and checkpointed. */
  lemma FoundReceivedChecked(s: System)
    requires s.up && !s.busy && s.f.pc == Reading && Newline(s.f.buf) < |s.f.buf|
    ensures var acts := [Loop(Found)] + ([Receive] + ([Checkpoint] + []));
      IsHistory(s, acts) && After(s, acts).memory == s.f.offset
  {
    var s1 := Next(s, Loop(Found));
    var s2 := Next(s1, Receive);
    HistoryCons(s2, Checkpoint, []);
    HistoryCons(s1, Receive, [Checkpoint] + []);
    HistoryCons(s, Loop(Found), [Receive] + ([Checkpoint] + []));
  }

  lemma FilledToEnd(s: System, k: nat)
    requires s.up && s.f.pc == Peeking && s.f.buf == [] && 1 <= k < PEEK_SIZE && s.f.pos + k == |s.file|
    ensures CanAct(s, Loop(Fill(k)))
    ensures Next(s, Loop(Fill(k))) == s.(f := s.f.(pos := |s.file|, buf := s.file[s.f.pos..]))
  {
    var read := s.file[s.f.pos..s.f.pos + k];
    assert read == s.file[s.f.pos..] && [] + read == read;
  }

  lemma PeekedClean(s: System)
    requires s.up && s.f.pc == Peeking && |s.f.buf| < PEEK_SIZE && s.f.pos == |s.file| && NulFree(s.f.buf)
    ensures CanAct(s, Loop(Peeked)) && Next(s, Loop(Peeked)) == s.(f := s.f.(pc := Reading))
  {
    NoNulHere(s.f.buf);
  }

  /** It does happen: a run that has resumed with 2 recorded, behind the first line of the file, records 0 after the
      line it receives first. */
  lemma CheckpointRegressesOnResume(s: System)
    requires s.file == [97, NL, 98, NL, 99] && !s.up && s.stored == Record(2)
    ensures var resumed := Next(s, Restart(true, true, true));
      var acts := [Loop(Fill(3))] + ([Loop(Peeked)] + ([Loop(Found)] + ([Receive] + ([Checkpoint] + []))));
      CanAct(s, Restart(true, true, true)) && resumed.memory == 2
      && IsHistory(resumed, acts) && After(resumed, acts).memory == 0
  {
    var s1 := Next(s, Restart(true, true, true));
    var tail := [98, NL, 99];
    assert s.file[2..] == tail;
    FilledToEnd(s1, 3);
    var s2 := s1.(f := s1.f.(pos := 5, buf := tail));
    PeekedClean(s2);
    var s3 := s2.(f := s2.f.(pc := Reading));
    NewlineAt(tail, 1);
    FoundReceivedChecked(s3);
    HistoryCons(s2, Loop(Peeked), [Loop(Found)] + ([Receive] + ([Checkpoint] + [])));
    HistoryCons(s1, Loop(Fill(3)), [Loop(Peeked)] + ([Loop(Found)] + ([Receive] + ([Checkpoint] + []))));
  }

  // ---------- What is resumed ----------

  /** Acts that leave the document of the file alone. */
  predicate LeavesRecord(a: Act) {
    !a.Restart? && !(a.Flush? && a.ok) && !(a.Close? && a.ok) && !(a.Forget? && a.ok)
  }

  lemma {:induction false} RecordKept(s: System, acts: seq<Act>)
    requires IsHistory(s, acts) && forall a :: a in acts ==> LeavesRecord(a)
    ensures After(s, acts).stored == s.stored
    decreases |acts|
  {
    hide Apply, Enabled;
    if acts != [] {
      assert acts[0] in acts && forall a :: a in acts[1..] ==> a in acts;
      RecordKept(Next(s, acts[0]), acts[1..]);
    }
  }

  /** An OK flush or graceful close followed by any history that does not write the document again, crashes included:
      the next restart that can read and open follows the file from the offset then in memory. */
  lemma ResumesWhereRecorded(s: System, a: Act, acts: seq<Act>, saved: bool)
    requires a == Flush(true) || a == Close(true)
    requires CanAct(s, a) && IsHistory(Next(s, a), acts) && forall b :: b in acts ==> LeavesRecord(b)
    requires !After(Next(s, a), acts).up && (s.memory != 0 || saved)
    ensures var u := Next(After(Next(s, a), acts), Restart(true, saved, true));
      u.up && u.memory == s.memory && u.f == Opened(s.memory)
  {
    RecordKept(Next(s, a), acts);
  }

  /** A graceful close stops the file at once, so that a restart may follow directly. */
  lemma ClosedThenResumed(s: System, saved: bool)
    requires CanAct(s, Close(true)) && (s.memory != 0 || saved)
    ensures var u := Next(Next(s, Close(true)), Restart(true, saved, true));
      CanAct(Next(s, Close(true)), Restart(true, saved, true)) && u.up && u.f == Opened(s.memory)
  {
    ResumesWhereRecorded(s, Close(true), [], saved);
  }

  /** After a crash, a restart that can read and open follows the file from the stored offset. */
  lemma CrashedThenResumed(s: System, saved: bool)
    requires CanAct(s, Crash) && s.stored.Record? && s.stored.offset != 0
    ensures var u := Next(Next(s, Crash), Restart(true, saved, true));
      CanAct(Next(s, Crash), Restart(true, saved, true)) && u.up && u.f == Opened(s.stored.offset)
  {}

  function Appended(acts: seq<Act>): seq<byte> {
    if acts == [] then [] else (if acts[0].Grow? then acts[0].more else []) + Appended(acts[1..])
  }

  /** Over every history, the file holds all that was appended to it. */
  lemma {:induction false} FileIsAppended(s: System, acts: seq<Act>)
    requires IsHistory(s, acts)
    ensures After(s, acts).file == s.file + Appended(acts)
    decreases |acts|
  {
    hide Apply, Enabled;
    if acts == [] {
      assert s.file + [] == s.file;
    } else {
      var more := if acts[0].Grow? then acts[0].more else [];
      FileIsAppended(Next(s, acts[0]), acts[1..]);
      assert Next(s, acts[0]).file == s.file + more;
      Assoc3(s.file, more, Appended(acts[1..]));
    }
  }
}
