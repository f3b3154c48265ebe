/** What the tail of an append-only file delivers: every complete line at least once across crashes and restarts,
    exactly once and in order within a run, and nothing but whole lines. */
module Delivery {
  import opened Bits
  import opened Follower
  import opened Checkpoint

  /** A position where a line starts. */
  predicate Boundary(file: seq<byte>, p: nat) {
    p == 0 || (p <= |file| && file[p - 1] == NL)
  }

  /** A complete line of the file. */
  predicate IsLine(file: seq<byte>, at: nat, text: seq<byte>) {
    && Boundary(file, at) && at + |text| < |file|
    && file[at..at + |text|] == text && file[at + |text|] == NL && Newline(text) == |text|
  }

  /** Every complete line that ends at or before p has been received. */
  ghost predicate Covered(log: set<Receipt>, file: seq<byte>, p: nat) {
    forall r: Receipt :: IsLine(file, r.at, r.text) && r.at + |r.text| < p ==> r in log
  }

  /** A position that is safe to resume from: it cuts no line, and skips none that was never received. */
  ghost predicate Safe(log: set<Receipt>, file: seq<byte>, p: nat) {
    p <= |file| && Boundary(file, p) && Covered(log, file, p)
  }

  /** Only complete lines of the file have been received. */
  ghost predicate Genuine(log: set<Receipt>, file: seq<byte>) {
    forall r :: r in log ==> IsLine(file, r.at, r.text)
  }

  predicate AllLines(ledger: seq<Chunk>) {
    forall c :: c in ledger ==> c.Line? && Newline(c.text) == |c.text|
  }

  lemma LineGrown(file: seq<byte>, more: seq<byte>, at: nat, text: seq<byte>)
    ensures IsLine(file, at, text) ==> IsLine(file + more, at, text)
    ensures IsLine(file + more, at, text) && at + |text| < |file| ==> IsLine(file, at, text)
  {
    if at + |text| < |file| {
      assert (file + more)[at..at + |text|] == file[at..at + |text|];
    }
  }

  lemma SafeGrown(log: set<Receipt>, file: seq<byte>, more: seq<byte>, p: nat)
    requires Safe(log, file, p)
    ensures Safe(log, file + more, p)
  {
    forall r: Receipt | IsLine(file + more, r.at, r.text) && r.at + |r.text| < p ensures r in log {
      LineGrown(file, more, r.at, r.text);
    }
  }

  lemma GenuineGrown(log: set<Receipt>, file: seq<byte>, more: seq<byte>)
    requires Genuine(log, file)
    ensures Genuine(log, file + more)
  {
    forall r | r in log ensures IsLine(file + more, r.at, r.text) {
      LineGrown(file, more, r.at, r.text);
    }
  }

  lemma SafeStart(log: set<Receipt>, file: seq<byte>)
    ensures Safe(log, file, 0)
  {}

  lemma SafeMore(log: set<Receipt>, file: seq<byte>, p: nat, r: Receipt)
    requires Safe(log, file, p)
    ensures Safe(log + {r}, file, p)
  {}

  lemma GenuineMore(log: set<Receipt>, file: seq<byte>, r: Receipt)
    requires Genuine(log, file) && IsLine(file, r.at, r.text)
    ensures Genuine(log + {r}, file)
  {}

  lemma NoNewlineInside(file: seq<byte>, p: nat, text: seq<byte>)
    requires IsLine(file, p, text)
    ensures forall i :: p <= i < p + |text| ==> file[i] != NL
  {
    NewlineIsFirst(text);
    assert forall i :: p <= i < p + |text| ==> file[i] == file[p..p + |text|][i - p];
  }

  /** A line that ends inside the next line is the next line. */
  lemma LineIsNext(file: seq<byte>, p: nat, text: seq<byte>, at: nat, other: seq<byte>)
    requires IsLine(file, p, text) && IsLine(file, at, other)
    requires p <= at + |other| <= p + |text|
    ensures at == p && other == text
  {
    NoNewlineInside(file, p, text);
    NoNewlineInside(file, at, other);
  }

  /** Receiving the line at a safe position makes the position behind it safe. */
  lemma SafeNext(log: set<Receipt>, file: seq<byte>, p: nat, text: seq<byte>)
    requires Safe(log, file, p) && IsLine(file, p, text)
    ensures Safe(log + {Receipt(p, text)}, file, p + |text| + 1)
  {
    forall r: Receipt | IsLine(file, r.at, r.text) && r.at + |r.text| < p + |text| + 1
      ensures r in log + {Receipt(p, text)}
    {
      if r.at + |r.text| >= p {
        LineIsNext(file, p, text, r.at, r.text);
      }
    }
  }

  // ---------- The invariant of every history of an append-only file without NULs ----------

  ghost predicate Following(s: System) {
    && Reads(s.file, s.f) && AllLines(s.f.ledger) && Safe(s.log, s.file, Cursor(s.f))
  }

  ghost predicate Inv(s: System) {
    && NulFree(s.file) && Genuine(s.log, s.file)
    && (s.stored.Record? ==> Safe(s.log, s.file, s.stored.offset))
    && (s.up ==> Safe(s.log, s.file, s.memory) && Safe(s.log, s.file, s.f.offset))
    && (s.up && s.f.pc != Closed ==> Following(s))
  }

  /** Appends carry no NUL. */
  predicate Plain(acts: seq<Act>) {
    forall a :: a in acts ==> (a.Grow? ==> NulFree(a.more))
  }

  lemma GrowStep(s: System, more: seq<byte>)
    requires Inv(s) && NulFree(more)
    ensures Inv(Next(s, Grow(more)))
  {
    GenuineGrown(s.log, s.file, more);
    if s.stored.Record? {
      SafeGrown(s.log, s.file, more, s.stored.offset);
    }
    if s.up {
      SafeGrown(s.log, s.file, more, s.memory);
      SafeGrown(s.log, s.file, more, s.f.offset);
      if s.f.pc != Closed {
        ReadsGrown(s.file, more, s.f);
        SafeGrown(s.log, s.file, more, Cursor(s.f));
      }
    }
  }

  /** In a file without NULs the NUL loop finds nothing to discard. */
  lemma NothingDiscarded(file: seq<byte>, f: Follower)
    requires NulFree(file) && Reads(file, f) && f.pc == Peeking
    ensures Apply(|file|, f, Peeked, []) == f.(pc := Reading)
  {
    hide Flatten, Newline;
    NothingPending(f);
    Halves(file, f.start, f.pos, Flatten(f.ledger), f.buf);
    assert forall i :: 0 <= i < |f.buf| ==> f.buf[i] == file[Cursor(f) + i];
    LastNulIsLast(Window(f.buf));
  }

  /** A step of the loop other than a send keeps what was sent and the cursor, or starts over; its offset stays,
      or becomes the cursor or 0. */
  lemma LoopKeeps(file: seq<byte>, f: Follower, e: Event)
    requires NulFree(file) && Reads(file, f) && f.pc != Closed
    requires Enabled(|file|, f, e) && !e.Sent? && !e.Stopped?
    ensures var g := Apply(|file|, f, e, ReadOf(file, f, e));
      && ((g.ledger == f.ledger && g.start == f.start) || (g.ledger == [] && g.start == 0))
      && (Cursor(g) == Cursor(f) || Cursor(g) == 0)
      && (g.offset == f.offset || g.offset == Cursor(f) || g.offset == 0)
  {
    if e == Peeked {
      NothingDiscarded(file, f);
    } else if e == HitEnd {
      ReadsHitEnd(file, f);
    }
  }

  lemma LoopStep(s: System, e: Event)
    requires Inv(s) && CanAct(s, Loop(e))
    ensures Inv(Next(s, Loop(e)))
  {
    if e == Stopped {
      FollowerGone(s, Apply(|s.file|, s.f, e, ReadOf(s.file, s.f, e)));
    } else {
      LoopOn(s, e);
    }
  }

  lemma FollowerGone(s: System, g: Follower)
    requires Inv(s) && s.up && g.pc == Closed && g.offset == s.f.offset
    ensures Inv(s.(f := g))
  {
    hide Reads, Safe, Genuine, NulFree;
  }

  lemma LoopOn(s: System, e: Event)
    requires Inv(s) && CanAct(s, Loop(e)) && e != Stopped
    ensures Inv(Next(s, Loop(e)))
  {
    hide Apply, ReadOf, Enabled, Reads, Safe, Genuine, NulFree, Cursor;
    var g := Apply(|s.file|, s.f, e, ReadOf(s.file, s.f, e));
    LoopKeeps(s.file, s.f, e);
    ReadsStep(s.file, s.f, e);
    SafeStart(s.log, s.file);
    FollowerReplaced(s, g);
  }

  lemma FollowerReplaced(s: System, g: Follower)
    requires Inv(s) && s.up && s.f.pc != Closed
    requires Reads(s.file, g) && AllLines(g.ledger)
    requires Safe(s.log, s.file, Cursor(g)) && Safe(s.log, s.file, g.offset)
    ensures Inv(s.(f := g))
  {}

  lemma AllLinesMore(ledger: seq<Chunk>, text: seq<byte>)
    requires AllLines(ledger) && Newline(text) == |text|
    ensures AllLines(ledger + [Line(text)])
  {}

  lemma CursorSent(size: nat, f: Follower)
    requires f.pc.Sending?
    ensures Cursor(Apply(size, f, Sent, [])) == Cursor(f) + |f.pc.text| + 1
  {
    FlattenSnoc(f.ledger, Line(f.pc.text));
  }

  lemma ReceivedLine(file: seq<byte>, f: Follower)
    requires Reads(file, f) && f.pc.Sending? && Boundary(file, Cursor(f))
    ensures IsLine(file, Cursor(f), f.pc.text)
  {
    ReadsSent(file, f);
  }

  /** The follower after its line is received. */
  lemma ReceivedFollower(file: seq<byte>, f: Follower)
    requires Reads(file, f) && f.pc.Sending? && AllLines(f.ledger)
    ensures var g := Apply(|file|, f, Sent, []);
      Reads(file, g) && AllLines(g.ledger) && g.offset == f.offset
  {
    ReadsSent(file, f);
    AllLinesMore(f.ledger, f.pc.text);
  }

  lemma ReceivedCursor(log: set<Receipt>, file: seq<byte>, f: Follower)
    requires f.pc.Sending? && IsLine(file, Cursor(f), f.pc.text) && Safe(log, file, Cursor(f))
    ensures Safe(log + {Receipt(Cursor(f), f.pc.text)}, file, Cursor(Apply(|file|, f, Sent, [])))
  {
    SafeNext(log, file, Cursor(f), f.pc.text);
    CursorSent(|file|, f);
  }

  lemma LogMore(s: System, r: Receipt)
    requires Inv(s) && s.up && IsLine(s.file, r.at, r.text)
    ensures Inv(s.(log := s.log + {r}, busy := true))
  {
    GenuineMore(s.log, s.file, r);
    SafeMore(s.log, s.file, s.memory, r);
    SafeMore(s.log, s.file, s.f.offset, r);
    if s.f.pc != Closed {
      SafeMore(s.log, s.file, Cursor(s.f), r);
    }
    if s.stored.Record? {
      SafeMore(s.log, s.file, s.stored.offset, r);
    }
  }

  lemma ReceiveStep(s: System)
    requires Inv(s) && CanAct(s, Receive)
    ensures Inv(Next(s, Receive))
  {
    var r := Receipt(Cursor(s.f), s.f.pc.text);
    ReceivedLine(s.file, s.f);
    ReceivedFollower(s.file, s.f);
    ReceivedCursor(s.log, s.file, s.f);
    LogMore(s, r);
    FollowerReplaced(s.(log := s.log + {r}, busy := true), Apply(|s.file|, s.f, Sent, []));
  }

  lemma RestartStep(s: System, found: bool, saved: bool, opens: bool)
    requires Inv(s) && !s.up
    ensures Inv(Next(s, Restart(found, saved, opens)))
  {
    hide Reads, Genuine, NulFree, Cursor, Boundary, Covered;
    SafeStart(s.log, s.file);
    if found && s.stored.Record? && s.stored.offset != 0 {
      OpenedReads(s.file, s.stored.offset);
    } else {
      OpenedReads(s.file, 0);
    }
  }

  lemma OpenedReads(file: seq<byte>, at: nat)
    requires at <= |file|
    ensures Reads(file, Opened(at)) && Cursor(Opened(at)) == at
  {}

  lemma ActStep(s: System, a: Act)
    requires Inv(s) && CanAct(s, a) && (a.Grow? ==> NulFree(a.more))
    ensures Inv(Next(s, a))
  {
    match a {
      case Grow(more) => GrowStep(s, more);
      case Loop(e) => LoopStep(s, e);
      case Receive => ReceiveStep(s);
      case Restart(found, saved, opens) => RestartStep(s, found, saved, opens);
      case _ =>
    }
  }

  lemma {:induction false} HistoryInv(s: System, acts: seq<Act>)
    requires Inv(s) && IsHistory(s, acts) && Plain(acts)
    ensures Inv(After(s, acts))
    decreases |acts|
  {
    if acts != [] {
      ActStep(s, acts[0]);
      HistoryInv(Next(s, acts[0]), acts[1..]);
    }
  }

  lemma ReachableInv(file: seq<byte>, acts: seq<Act>)
    requires NulFree(file) && IsHistory(Initial(file), acts) && Plain(acts)
    ensures Inv(After(Initial(file), acts))
  {
    HistoryInv(Initial(file), acts);
  }

  // ---------- At least once, across crashes and restarts ----------

  /** At every reachable state, whatever failed or crashed before: the offsets in memory and in storage cut no line,
      and every complete line before them, or before the follower's own position, has been received in some run.
      Stopping here and resuming there skips nothing; and nothing but complete lines was ever received. */
  lemma AtLeastOnce(file: seq<byte>, acts: seq<Act>)
    requires NulFree(file) && IsHistory(Initial(file), acts) && Plain(acts)
    ensures var s := After(Initial(file), acts);
      && Genuine(s.log, s.file)
      && (s.stored.Record? ==> Safe(s.log, s.file, s.stored.offset))
      && (s.up ==> Safe(s.log, s.file, s.memory))
      && (s.up && s.f.pc != Closed ==> Safe(s.log, s.file, Cursor(s.f)))
  {
    ReachableInv(file, acts);
  }

  // ---------- When a checkpoint goes back, reopens included ----------

  /** Once the follower has met the end of the file, nothing beyond its offset has been recorded. */
  ghost predicate Advancing(s: System) {
    s.up ==> s.f.offset == 0 || s.memory <= s.f.offset
  }

  /** No line starts behind the partial line at the end of the file. */
  lemma NoneBehind(file: seq<byte>, cursor: nat, p: nat)
    requires cursor <= |file| && Newline(file[cursor..]) == |file| - cursor && p <= |file| && Boundary(file, p)
    ensures p <= cursor
  {
    NewlineIsFirst(file[cursor..]);
    forall j | cursor <= j < |file| ensures file[j] != NL {
      assert file[j] == file[cursor..][j - cursor];
    }
  }

  lemma AdvancingStep(s: System, a: Act)
    requires Inv(s) && Advancing(s) && CanAct(s, a)
    ensures Advancing(Next(s, a))
  {
    hide Reads, Genuine, NulFree, Enabled, Window, LastNul, Newline, Flatten, Covered, AllLines;
    if a.Loop? && a.event == HitEnd {
      ReadsHitEnd(s.file, s.f);
      NoneBehind(s.file, Cursor(s.f), s.memory);
    }
  }

  lemma {:induction false} AdvancingHistory(s: System, acts: seq<Act>)
    requires Inv(s) && Advancing(s) && IsHistory(s, acts) && Plain(acts)
    ensures Advancing(After(s, acts))
    decreases |acts|
  {
    if acts != [] {
      AdvancingStep(s, acts[0]);
      ActStep(s, acts[0]);
      AdvancingHistory(Next(s, acts[0]), acts[1..]);
    }
  }

  /** Over every history of a file without NULs, reopens, crashes and restarts included, a checkpoint moves the
      recorded offset backwards exactly when no end of file has been met in this run and something was recorded. */
  lemma RegressesOnlyEarly(file: seq<byte>, acts: seq<Act>)
    requires NulFree(file) && IsHistory(Initial(file), acts) && Plain(acts)
    requires CanAct(After(Initial(file), acts), Checkpoint)
    ensures var t := After(Initial(file), acts);
      Next(t, Checkpoint).memory < t.memory <==> t.f.offset == 0 && t.memory > 0
  {
    AdvancingHistory(Initial(file), acts);
  }

  lemma CoveredBeyond(log: set<Receipt>, file: seq<byte>, p: nat)
    requires p <= |file| && Covered(log, file, p) && Newline(file[p..]) == |file[p..]|
    ensures Covered(log, file, |file|)
  {
    NewlineIsFirst(file[p..]);
    assert forall i :: p <= i < |file| ==> file[i] == file[p..][i - p];
  }

  /** Whenever the follower meets the end of the file, every complete line of the file has been received. */
  lemma NoneMissingAtEnd(s: System)
    requires Inv(s) && CanAct(s, Loop(HitEnd))
    ensures Covered(s.log, s.file, |s.file|)
  {
    ReadsHitEnd(s.file, s.f);
    CoveredBeyond(s.log, s.file, Cursor(s.f));
  }

  // ---------- Exactly once and in order within a run, however appends and reads interleave ----------

  lemma SplitLine(text: seq<byte>, rest: seq<byte>)
    requires Newline(text) == |text|
    ensures Split(text + [NL] + rest) == [text] + Split(rest)
  {
    var all := text + [NL] + rest;
    assert all == text + ([NL] + rest);
    NewlineConcat(text, [NL] + rest);
    assert all[..|text|] == text && all[|text| + 1..] == rest;
  }

  /** A newline-free tail adds no complete line. */
  lemma {:induction false} SplitFlatten(ledger: seq<Chunk>, tail: seq<byte>)
    requires AllLines(ledger) && Newline(tail) == |tail|
    ensures Split(Flatten(ledger) + tail) == Texts(ledger)
    decreases |ledger|
  {
    if ledger == [] {
      assert [] + tail == tail;
    } else {
      hide Split, Newline, Flatten;
      var c, rest := ledger[0], ledger[1..];
      assert c in ledger && forall d :: d in rest ==> d in ledger;
      SplitFlatten(rest, tail);
      SplitLine(c.text, Flatten(rest) + tail);
      FlattenCons(c, rest);
      assert [c] + rest == ledger;
      Assoc3(Raw(c), Flatten(rest), tail);
    }
  }

  /** Chunking independence: when the follower waits, the lines it has sent since the start of its generation are
      the newline-split of the file from there to t.offset. */
  lemma SentIsSplit(s: System)
    requires Inv(s) && s.up && s.f.pc == Waiting
    ensures s.f.start <= s.f.offset <= |s.file| && Texts(s.f.ledger) == Split(s.file[s.f.start..s.f.offset])
  {
    assert Pending(s.f) == [];
    assert s.file[s.f.start..s.f.offset] == Flatten(s.f.ledger) + [];
    SplitFlatten(s.f.ledger, []);
  }

  /** And the moment it meets the end, they are all the complete lines from there on. */
  lemma SentIsAll(s: System)
    requires Inv(s) && CanAct(s, Loop(HitEnd))
    ensures s.f.start <= |s.file| && Texts(s.f.ledger) == Split(s.file[s.f.start..])
  {
    NothingSent(s.f);
    NewlineConcat(s.f.frag, s.f.buf);
    assert s.file[s.f.start..] == s.file[s.f.start..s.f.pos];
    SplitFlatten(s.f.ledger, s.f.frag + s.f.buf);
  }

  lemma ChunkingIndependence(file: seq<byte>, acts: seq<Act>)
    requires NulFree(file) && IsHistory(Initial(file), acts) && Plain(acts)
    ensures var s := After(Initial(file), acts);
      s.up && s.f.pc == Waiting ==>
        s.f.start <= s.f.offset <= |s.file| && Texts(s.f.ledger) == Split(s.file[s.f.start..s.f.offset])
    ensures var s := After(Initial(file), acts);
      CanAct(s, Loop(HitEnd)) ==>
        s.f.start <= |s.file| && Texts(s.f.ledger) == Split(s.file[s.f.start..]) && Covered(s.log, s.file, |s.file|)
  {
    ReachableInv(file, acts);
    var s := After(Initial(file), acts);
    if s.up && s.f.pc == Waiting {
      SentIsSplit(s);
    }
    if CanAct(s, Loop(HitEnd)) {
      SentIsAll(s);
      NoneMissingAtEnd(s);
    }
  }
}
