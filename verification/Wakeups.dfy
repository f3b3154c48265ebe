/** What the follower does when it wakes up, for every run over a file at rest: how far back it starts to read, and
    that the reads in between do not matter. */
module Wakeups {
  import opened Bits
  import opened Follower
  import TailfollowerLoop

  function Tail(content: seq<byte>, pos: nat): seq<byte> {
    if pos <= |content| then content[pos..] else []
  }

  /** What the steps up to the next wait will add to the ledger. */
  function Left(content: seq<byte>, f: Follower): seq<Chunk> {
    var ahead := f.buf + Tail(content, f.pos);
    if f.pc == Peeking then Pass(ahead)
    else if f.pc == Reading then PassLine(f.frag + ahead)
    else if f.pc.Sending? then [Line(f.pc.text)] + Pass(ahead)
    else []
  }

  /** A step of the loop itself over a file at rest, which reads what the file holds. */
  ghost predicate CanStep(content: seq<byte>, f: Follower, m: Move) {
    && CanMove(f, m) && m.size == |content|
    && !m.event.Written? && !m.event.Ticked? && !m.event.Reopened? && !m.event.Stopped?
    && (m.event.Fill? ==> m.read == content[f.pos..f.pos + m.event.k])
  }

  ghost predicate IsRestRun(content: seq<byte>, f: Follower, moves: seq<Move>)
    decreases |moves|
  {
    moves == [] || (CanStep(content, f, moves[0]) && IsRestRun(content, Step(f, moves[0]), moves[1..]))
  }

  ghost predicate Steady(f: Follower) {
    Accounted(f) && Newline(f.frag) == |f.frag|
  }

  ghost predicate Kept(content: seq<byte>, f: Follower, g: Follower) {
    && Steady(g) && g.pc != Closed && g.start == f.start
    && g.ledger + Left(content, g) == f.ledger + Left(content, f)
  }

  lemma FillKept(content: seq<byte>, f: Follower, k: nat)
    requires Steady(f) && f.pc != Closed && Enabled(|content|, f, Fill(k))
    ensures Kept(content, f, Apply(|content|, f, Fill(k), content[f.pos..f.pos + k]))
  {
    StepAccounted(|content|, f, Fill(k), content[f.pos..f.pos + k]);
    TailfollowerLoop.TailCut(f.buf, content, f.pos, k);
  }

  lemma LeftFrom(content: seq<byte>, f: Follower)
    requires f.frag == [] && (f.pc == Peeking || f.pc == Reading)
    ensures Left(content, f) == PassFrom(f.pc == Reading, f.buf + Tail(content, f.pos))
  {
    assert [] + (f.buf + Tail(content, f.pos)) == f.buf + Tail(content, f.pos);
  }

  lemma PeekedKept(content: seq<byte>, f: Follower)
    requires Steady(f) && Enabled(|content|, f, Peeked)
    ensures Kept(content, f, Apply(|content|, f, Peeked, []))
  {
    hide Left, LastNul, Window, Flatten, Newline, Pending;
    StepAccounted(|content|, f, Peeked, []);
    var g := Apply(|content|, f, Peeked, []);
    assert g.frag == f.frag == [] && g.pc != Closed && g.start == f.start;
    PeekedShape(content, f, g);
    hide Accounted, Apply, Enabled;
  }

  lemma PeekedShape(content: seq<byte>, f: Follower, g: Follower)
    requires f.frag == [] && Enabled(|content|, f, Peeked) && g == Apply(|content|, f, Peeked, [])
    ensures g.ledger + Left(content, g) == f.ledger + Left(content, f)
  {
    hide Left, LastNul, PassFrom;
    var i := LastNul(Window(f.buf));
    assert i < |f.buf|;
    hide Window;
    LeftFrom(content, f);
    LeftFrom(content, g);
    PeekedLeft(f.buf, Tail(content, f.pos), f.ledger);
    assert f.pc == Peeking && g.pc == if i + 1 < PEEK_SIZE then Reading else Peeking;
    hide Enabled, Tail;
    assert g.pos == f.pos;
    if i > 0 {
      assert g.buf == f.buf[i + 1..] && g.ledger == f.ledger + [Discarded(f.buf[..i + 1])];
    } else {
      assert g.buf == f.buf && g.ledger == f.ledger;
    }
  }

  lemma PeekedLeft(buf: seq<byte>, tail: seq<byte>, ledger: seq<Chunk>)
    requires |buf| >= PEEK_SIZE || tail == []
    ensures var i := LastNul(Window(buf));
      if i > 0 then
        ledger + PassFrom(false, buf + tail)
          == ledger + [Discarded(buf[..i + 1])] + PassFrom(i + 1 < PEEK_SIZE, buf[i + 1..] + tail)
      else PassFrom(false, buf + tail) == PassFrom(i + 1 < PEEK_SIZE, buf + tail)
  {
    hide Pass, PassLine, LastNul;
    var i := LastNul(Window(buf));
    assert Window(buf + tail) == Window(buf);
    if i > 0 {
      TailfollowerLoop.Round(buf + tail, buf, tail, i);
      TailfollowerLoop.Assoc(ledger, [Discarded(buf[..i + 1])], PassFrom(i + 1 < PEEK_SIZE, buf[i + 1..] + tail));
    } else {
      PassRound(buf + tail, i);
    }
  }

  lemma SpilledKept(content: seq<byte>, f: Follower)
    requires Steady(f) && Enabled(|content|, f, Spilled)
    ensures Kept(content, f, Apply(|content|, f, Spilled, []))
  {
    StepAccounted(|content|, f, Spilled, []);
    NewlineConcat(f.frag, f.buf);
    var tail := Tail(content, f.pos);
    assert f.frag + (f.buf + tail) == f.frag + f.buf + ([] + tail);
  }

  lemma FoundLeft(frag: seq<byte>, buf: seq<byte>, tail: seq<byte>, j: nat)
    requires Newline(frag) == |frag| && j == Newline(buf) < |buf|
    ensures PassLine(frag + (buf + tail)) == [Line(frag + buf[..j])] + Pass(buf[j + 1..] + tail)
  {
    hide Pass, PassLine, Newline;
    NewlineConcat(buf, tail);
    NewlineConcat(frag, buf + tail);
    TailfollowerLoop.LineFound(frag, buf, tail, j);
    TailfollowerLoop.PassLineSplit(frag + (buf + tail), frag + buf[..j + 1], buf[j + 1..] + tail);
  }

  lemma FoundKept(content: seq<byte>, f: Follower)
    requires Steady(f) && Enabled(|content|, f, Found)
    ensures Kept(content, f, Apply(|content|, f, Found, []))
  {
    hide Left, LastNul, Window, Flatten, Newline, Pending;
    NoNewline();
    StepAccounted(|content|, f, Found, []);
    var g := Apply(|content|, f, Found, []);
    assert g.frag == [] && g.pc != Closed && g.start == f.start;
    FoundShape(content, f, g);
    hide Accounted, Apply, Enabled;
  }

  lemma FoundShape(content: seq<byte>, f: Follower, g: Follower)
    requires Newline(f.frag) == |f.frag| && Enabled(|content|, f, Found) && g == Apply(|content|, f, Found, [])
    ensures g.ledger + Left(content, g) == f.ledger + Left(content, f)
  {
    hide Pass, PassLine, Newline, Tail;
    FoundLeft(f.frag, f.buf, Tail(content, f.pos), Newline(f.buf));
  }

  lemma NoNewline()
    ensures Newline([]) == 0
  {}

  lemma HitEndKept(content: seq<byte>, f: Follower)
    requires Steady(f) && Enabled(|content|, f, HitEnd)
    ensures Kept(content, f, Apply(|content|, f, HitEnd, []))
  {
    StepAccounted(|content|, f, HitEnd, []);
    NewlineConcat(f.frag, f.buf);
    assert Tail(content, f.pos) == [] && f.buf + [] == f.buf;
  }

  lemma SentKept(content: seq<byte>, f: Follower)
    requires Steady(f) && Enabled(|content|, f, Sent)
    ensures Kept(content, f, Apply(|content|, f, Sent, []))
  {
    StepAccounted(|content|, f, Sent, []);
    TailfollowerLoop.Assoc(f.ledger, [Line(f.pc.text)], Pass(f.buf + Tail(content, f.pos)));
  }

  lemma StepKept(content: seq<byte>, f: Follower, m: Move)
    requires Steady(f) && CanStep(content, f, m)
    ensures Kept(content, f, Step(f, m))
  {
    hide Kept, Steady, Enabled;
    match m.event {
      case Fill(k) => FillKept(content, f, k);
      case Peeked => PeekedKept(content, f);
      case Spilled => SpilledKept(content, f);
      case Found => FoundKept(content, f);
      case HitEnd => HitEndKept(content, f);
      case Sent => SentKept(content, f);
    }
  }

  /** Every run over a file at rest, however its reads fall, sends and discards the same until the next wait. */
  lemma {:induction false} RestRunIsPass(content: seq<byte>, f: Follower, moves: seq<Move>)
    requires Steady(f) && IsRestRun(content, f, moves) && Run(f, moves).pc == Waiting
    ensures Run(f, moves).ledger == f.ledger + Left(content, f) && Run(f, moves).start == f.start
    decreases |moves|
  {
    hide Steady, CanStep, Step;
    if moves == [] {
      assert f.ledger + [] == f.ledger;
    } else {
      StepKept(content, f, moves[0]);
      RestRunIsPass(content, Step(f, moves[0]), moves[1..]);
    }
  }

  /** A follower that has run up to a wait, over any changes of the file, from a start at any offset. */
  ghost predicate WaitsAfter(at: nat, before: seq<Move>, f: Follower) {
    IsRun(Opened(at), before) && f == Run(Opened(at), before) && f.pc == Waiting
  }

  lemma WaitsSteady(at: nat, before: seq<Move>, f: Follower)
    requires WaitsAfter(at, before, f)
    ensures Accounted(f) && f.pc == Waiting && f.buf == [] && f.frag == [] && f.pos == f.offset
  {
    RunAccounted(Opened(at), before);
    WaitPoint(f);
  }

  lemma NothingBuffered(content: seq<byte>, at: nat)
    ensures [] + Tail(content, 0) == content && [] + Tail(content, at) == Tail(content, at)
  {}

  /** A write event: if the file is now shorter than t.offset it is read again from its first byte, else on from
      t.offset. */
  lemma AfterWrite(at: nat, before: seq<Move>, f: Follower, content: seq<byte>, moves: seq<Move>)
    requires WaitsAfter(at, before, f)
    requires var g := Apply(|content|, f, Written, []);
      IsRestRun(content, g, moves) && Run(g, moves).pc == Waiting
    ensures var t := Run(Apply(|content|, f, Written, []), moves);
      if |content| < f.offset then t.start == 0 && t.ledger == Pass(content)
      else t.start == f.start && t.ledger == f.ledger + Pass(content[f.offset..])
  {
    hide Flatten, IsRestRun, WaitsAfter, Pass;
    WaitsSteady(at, before, f);
    NoFlat();
    NoNewline();
    NothingBuffered(content, f.offset);
    var g := Apply(|content|, f, Written, []);
    assert Steady(g);
    RestRunIsPass(content, g, moves);
    assert [] + Pass(content) == Pass(content);
  }

  lemma NoFlat()
    ensures Flatten([]) == []
  {}

  /** A replaced file: it is read from its first byte, whatever was read of the old one; t.offset keeps its old value
      up to the next end of file. */
  lemma AfterReopen(at: nat, before: seq<Move>, f: Follower, content: seq<byte>, moves: seq<Move>)
    requires WaitsAfter(at, before, f)
    requires var g := Apply(|content|, f, Reopened, []);
      IsRestRun(content, g, moves) && Run(g, moves).pc == Waiting
    ensures var t := Run(Apply(|content|, f, Reopened, []), moves);
      t.start == 0 && t.ledger == Pass(content)
    ensures Apply(|content|, f, Reopened, []).offset == f.offset
  {
    hide Flatten, IsRestRun, WaitsAfter, Pass;
    WaitsSteady(at, before, f);
    NoFlat();
    NoNewline();
    NothingBuffered(content, f.offset);
    var g := Apply(|content|, f, Reopened, []);
    assert Steady(g);
    RestRunIsPass(content, g, moves);
    assert [] + Pass(content) == Pass(content);
  }

  /** A timeout that finds the same file: it is read on from t.offset, and a truncation is not looked for. */
  lemma AfterTimeout(at: nat, before: seq<Move>, f: Follower, content: seq<byte>, moves: seq<Move>)
    requires WaitsAfter(at, before, f)
    requires var g := Apply(|content|, f, Ticked, []);
      IsRestRun(content, g, moves) && Run(g, moves).pc == Waiting
    ensures var t := Run(Apply(|content|, f, Ticked, []), moves);
      && t.start == f.start
      && t.ledger == f.ledger + Pass(if f.offset <= |content| then content[f.offset..] else [])
  {
    hide Flatten, IsRestRun, WaitsAfter, Pass;
    WaitsSteady(at, before, f);
    NoNewline();
    NothingBuffered(content, f.offset);
    var g := Apply(|content|, f, Ticked, []);
    assert Steady(g);
    RestRunIsPass(content, g, moves);
  }

  /** The loop is never stuck: whatever the file has become, a step other than stopping is possible. */
  lemma NeverStuck(size: nat, f: Follower) returns (e: Event)
    requires Accounted(f) && f.pc != Closed
    ensures Enabled(size, f, e) && !e.Stopped?
  {
    if f.pc == Waiting {
      e := Ticked;
    } else if f.pc.Sending? {
      e := Sent;
    } else if f.pc == Peeking {
      e := if |f.buf| >= PEEK_SIZE || f.pos >= size then Peeked else Fill(1);
    } else if Newline(f.buf) < |f.buf| {
      e := Found;
    } else if |f.buf| >= BUF_SIZE {
      e := Spilled;
    } else {
      e := if f.pos >= size then HitEnd else Fill(1);
    }
  }
}
