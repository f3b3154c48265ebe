/** Tailfollower of logmining/follower.go: a buffered reader over a file that other processes change at will.

    The loop is a machine of small steps, so that appends, truncations and replacements can fall between any two
    reads. `ledger` records what the loop consumed since it last sought or reopened.
 */
module Follower {
  import opened Bits

  const NL: byte := 10
  const NUL: byte := 0
  const BUF_SIZE := 4096
  const PEEK_SIZE := 1024

  /** A line sent, without its newline, or bytes thrown away by the NUL loop. */
  datatype Chunk = Line(text: seq<byte>) | Discarded(bytes: seq<byte>)

  function Raw(c: Chunk): seq<byte> {
    match c
    case Line(text) => text + [NL]
    case Discarded(bytes) => bytes
  }

  function Flatten(ledger: seq<Chunk>): seq<byte> {
    if ledger == [] then [] else Flatten(ledger[..|ledger| - 1]) + Raw(ledger[|ledger| - 1])
  }

  lemma FlattenSnoc(ledger: seq<Chunk>, c: Chunk)
    ensures Flatten(ledger + [c]) == Flatten(ledger) + Raw(c)
  {
    assert (ledger + [c])[..|ledger|] == ledger;
  }

  /** bytes.LastIndexByte(b, 0) */
  function LastNul(b: seq<byte>): (i: int)
    ensures -1 <= i < |b|
  {
    if b == [] then -1
    else if b[|b| - 1] == NUL then |b| - 1
    else LastNul(b[..|b| - 1])
  }

  /** Index of the first newline, or the length. */
  function Newline(b: seq<byte>): (i: nat)
    ensures i <= |b|
  {
    if b == [] || b[0] == NL then 0 else 1 + Newline(b[1..])
  }

  lemma {:induction false} LastNulIsLast(b: seq<byte>)
    ensures LastNul(b) >= 0 ==> b[LastNul(b)] == NUL
    ensures forall j :: LastNul(b) < j < |b| ==> b[j] != NUL
  {
    if b != [] && b[|b| - 1] != NUL {
      LastNulIsLast(b[..|b| - 1]);
    }
  }

  lemma {:induction false} NewlineIsFirst(b: seq<byte>)
    ensures Newline(b) < |b| ==> b[Newline(b)] == NL
    ensures forall j :: 0 <= j < Newline(b) ==> b[j] != NL
  {
    if b != [] && b[0] != NL {
      NewlineIsFirst(b[1..]);
      assert forall j :: 0 < j < Newline(b) ==> b[j] == b[1..][j - 1];
    }
  }

  /** Nothing but the position of the first newline matters. */
  lemma NewlineAt(b: seq<byte>, n: nat)
    requires n <= |b| && (n < |b| ==> b[n] == NL) && forall j :: 0 <= j < n ==> b[j] != NL
    ensures Newline(b) == n
  {
    NewlineIsFirst(b);
  }

  lemma NewlineConcat(a: seq<byte>, b: seq<byte>)
    ensures Newline(a) == |a| ==> Newline(a + b) == |a| + Newline(b)
    ensures Newline(a) < |a| ==> Newline(a + b) == Newline(a)
  {
    NewlineIsFirst(a);
    NewlineIsFirst(b);
    var n := if Newline(a) < |a| then Newline(a) else |a| + Newline(b);
    NewlineAt(a + b, n);
  }

  /** Where the loop stands: in the NUL loop, inside ReadBytes, blocked on the channel, in the select, or gone. */
  datatype Pc = Peeking | Reading | Sending(text: seq<byte>) | Waiting | Closed

  datatype Follower = Follower(
    pos: nat,            // position of the file handle
    buf: seq<byte>,      // bufio's buffer
    frag: seq<byte>,     // what ReadBytes has collected from full buffers
    offset: nat,         // t.offset
    pc: Pc,
    start: nat,          // where this generation of reading began
    ledger: seq<Chunk>)

  /** A fresh follower seeks to `at`; its offset stays 0 until the first end of file. */
  function Opened(at: nat): Follower {
    Follower(at, [], [], 0, Peeking, at, [])
  }

  datatype Event =
    | Fill(k: nat)   // one read from the handle into the buffer
    | Peeked         // Peek returns; bytes up to a NUL are discarded
    | Spilled        // ReadBytes empties a full buffer without a newline
    | Found          // ReadBytes returns a line
    | HitEnd         // ReadBytes meets end of file: seek back over the partial line
    | Sent           // the line is received
    | Written        // a write or chmod event: seek to the start if the file is now shorter than offset
    | Ticked         // the timeout, with the path still naming the open file
    | Reopened       // rewatch: a new handle on whatever the path names now
    | Stopped        // an error or a request to stop

  function Window(buf: seq<byte>): seq<byte> {
    if |buf| < PEEK_SIZE then buf else buf[..PEEK_SIZE]
  }

  /** Which steps the code can take over a file of `size` bytes. */
  predicate Enabled(size: nat, f: Follower, e: Event) {
    match e
    case Fill(k) =>
      && 1 <= k <= BUF_SIZE - |f.buf| && f.pos + k <= size
      && ((f.pc == Peeking && |f.buf| < PEEK_SIZE) || (f.pc == Reading && Newline(f.buf) == |f.buf|))
    case Peeked => f.pc == Peeking && (|f.buf| >= PEEK_SIZE || f.pos >= size)
    case Spilled => f.pc == Reading && Newline(f.buf) == |f.buf| >= BUF_SIZE
    case Found => f.pc == Reading && Newline(f.buf) < |f.buf|
    case HitEnd => f.pc == Reading && Newline(f.buf) == |f.buf| < BUF_SIZE && f.pos >= size
    case Sent => f.pc.Sending?
    case Written => f.pc == Waiting
    case Ticked => f.pc == Waiting
    case Reopened => f.pc == Waiting
    case Stopped => f.pc != Closed
  }

  /** One step over a file of `size` bytes; `read` is what the handle delivers, k bytes for Fill(k). */
  function Apply(size: nat, f: Follower, e: Event, read: seq<byte>): Follower {
    match e
    case Fill(_) => f.(pos := f.pos + |read|, buf := f.buf + read)
    case Peeked =>
      var i := LastNul(Window(f.buf));
      var g := if i > 0 then f.(buf := f.buf[i + 1..], ledger := f.ledger + [Discarded(f.buf[..i + 1])]) else f;
      g.(pc := if i + 1 < PEEK_SIZE then Reading else Peeking)
    case Spilled => f.(frag := f.frag + f.buf, buf := [])
    case Found =>
      var j := Newline(f.buf);
      if j < |f.buf| then f.(pc := Sending(f.frag + f.buf[..j]), buf := f.buf[j + 1..], frag := []) else f
    case HitEnd =>
      var l := |f.frag + f.buf|;
      var at := if l <= f.pos then f.pos - l else 0;
      f.(pos := at, offset := at, buf := [], frag := [], pc := Waiting)
    case Sent => if f.pc.Sending? then f.(ledger := f.ledger + [Line(f.pc.text)], pc := Peeking) else f
    case Written =>
      if f.offset > size then Follower(0, [], [], 0, Peeking, 0, []) else f.(pc := Peeking)
    case Ticked => f.(pc := Peeking)
    case Reopened => Follower(0, [], [], f.offset, Peeking, 0, [])
    case Stopped => f.(pc := Closed)
  }

  /** Bytes taken from the handle but not yet in the ledger. */
  function Pending(f: Follower): seq<byte> {
    (if f.pc.Sending? then f.pc.text + [NL] else []) + f.frag + f.buf
  }

  /** Position of the first byte that is neither sent nor discarded. */
  function Cursor(f: Follower): nat {
    f.start + |Flatten(f.ledger)|
  }

  // ---------- The wait-point invariant, under any interference ----------

  ghost predicate Accounted(f: Follower) {
    && f.pos == Cursor(f) + |Pending(f)|
    && |f.buf| <= BUF_SIZE
    && (!f.pc.Reading? ==> f.frag == [])
    && (f.pc == Waiting ==> f.buf == [] && f.offset == f.pos)
  }

  lemma PeekedAccounted(size: nat, f: Follower)
    requires Accounted(f) && f.pc == Peeking
    ensures Accounted(Apply(size, f, Peeked, []))
  {
    var i := LastNul(Window(f.buf));
    if i > 0 {
      FlattenSnoc(f.ledger, Discarded(f.buf[..i + 1]));
    }
  }

  /** Every step of the loop accounts for every byte position, whatever the reads deliver. */
  lemma StepAccounted(size: nat, f: Follower, e: Event, read: seq<byte>)
    requires Accounted(f) && f.pc != Closed && Enabled(size, f, e)
    requires e.Fill? ==> |read| == e.k
    ensures Apply(size, f, e, read).pc != Closed ==> Accounted(Apply(size, f, e, read))
  {
    if e == Peeked {
      PeekedAccounted(size, f);
    } else if e == Sent {
      FlattenSnoc(f.ledger, Line(f.pc.text));
    }
  }

  /** When the loop reaches its select, the buffer is empty and t.offset is the handle's position: the start of the
      generation plus all lines sent with their newlines plus all bytes discarded. */
  lemma WaitPoint(f: Follower)
    requires Accounted(f) && f.pc == Waiting
    ensures f.buf == [] && f.frag == [] && f.offset == f.pos == f.start + |Flatten(f.ledger)|
  {}

  /** One step over some state of the file, with what the read delivers. */
  datatype Move = Move(size: nat, event: Event, read: seq<byte>)

  ghost predicate CanMove(f: Follower, m: Move) {
    f.pc != Closed && Enabled(m.size, f, m.event) && (m.event.Fill? ==> |m.read| == m.event.k)
  }

  ghost function Step(f: Follower, m: Move): Follower {
    Apply(m.size, f, m.event, m.read)
  }

  ghost predicate IsRun(f: Follower, moves: seq<Move>)
    decreases |moves|
  {
    moves == [] || (CanMove(f, moves[0]) && IsRun(Step(f, moves[0]), moves[1..]))
  }

  ghost function Run(f: Follower, moves: seq<Move>): Follower
    decreases |moves|
  {
    if moves == [] then f else Run(Step(f, moves[0]), moves[1..])
  }

  /** Over all event runs from any starting offset, with the file changing arbitrarily between steps. */
  lemma {:induction false} RunAccounted(f: Follower, moves: seq<Move>)
    requires Accounted(f) && IsRun(f, moves)
    ensures Run(f, moves).pc != Closed ==> Accounted(Run(f, moves))
    decreases |moves|
  {
    if moves != [] {
      var g := Step(f, moves[0]);
      StepAccounted(moves[0].size, f, moves[0].event, moves[0].read);
      if g.pc != Closed {
        RunAccounted(g, moves[1..]);
      }
    }
  }

  lemma WaitPointOverRuns(at: nat, moves: seq<Move>)
    requires IsRun(Opened(at), moves) && Run(Opened(at), moves).pc == Waiting
    ensures var f := Run(Opened(at), moves);
      f.buf == [] && f.frag == [] && f.offset == f.pos == f.start + |Flatten(f.ledger)|
  {
    RunAccounted(Opened(at), moves);
    WaitPoint(Run(Opened(at), moves));
  }

  lemma RunOne(f: Follower, m: Move)
    requires CanMove(f, m)
    ensures IsRun(f, [m]) && Run(f, [m]) == Step(f, m)
  {
    assert [m][1..] == [];
  }

  lemma {:induction false} RunConcat(f: Follower, a: seq<Move>, b: seq<Move>)
    requires IsRun(f, a) && IsRun(Run(f, a), b)
    ensures IsRun(f, a + b) && Run(f, a + b) == Run(Run(f, a), b)
    decreases |a|
  {
    if a == [] {
      assert a + b == b;
    } else {
      assert (a + b)[1..] == a[1..] + b;
      RunConcat(Step(f, a[0]), a[1..], b);
    }
  }

  // ---------- One read-to-EOF pass over a file that rests ----------

  /** What one pass consumes of the bytes ahead of it, independently of any buffer: at the NUL loop... */
  function Pass(ahead: seq<byte>): seq<Chunk>
    decreases |ahead|, 1
  {
    var i := LastNul(Window(ahead));
    if i <= 0 then PassLine(ahead)
    else [Discarded(ahead[..i + 1])] +
         if i + 1 < PEEK_SIZE then PassLine(ahead[i + 1..]) else Pass(ahead[i + 1..])
  }

  /** ...and at ReadBytes. */
  function PassLine(ahead: seq<byte>): seq<Chunk>
    decreases |ahead|, 0
  {
    var j := Newline(ahead);
    if j == |ahead| then [] else [Line(ahead[..j])] + Pass(ahead[j + 1..])
  }

  /** The rest of a pass, at either of its two points. */
  function PassFrom(reading: bool, ahead: seq<byte>): seq<Chunk> {
    if reading then PassLine(ahead) else Pass(ahead)
  }

  lemma PassRound(ahead: seq<byte>, i: int)
    requires i == LastNul(Window(ahead))
    ensures i <= 0 ==> Pass(ahead) == PassFrom(true, ahead)
    ensures i > 0 ==> Pass(ahead) == [Discarded(ahead[..i + 1])] + PassFrom(i + 1 < PEEK_SIZE, ahead[i + 1..])
  {}

  function Texts(ledger: seq<Chunk>): seq<seq<byte>> {
    if ledger == [] then []
    else (if ledger[0].Line? then [ledger[0].text] else []) + Texts(ledger[1..])
  }

  lemma {:induction false} TextsConcat(a: seq<Chunk>, b: seq<Chunk>)
    ensures Texts(a + b) == Texts(a) + Texts(b)
  {
    if a == [] {
      assert a + b == b;
    } else {
      assert (a + b)[1..] == a[1..] + b;
      TextsConcat(a[1..], b);
    }
  }

  /** Splitting at newlines; a last line without one is not complete. */
  function Split(s: seq<byte>): seq<seq<byte>>
    decreases |s|
  {
    var j := Newline(s);
    if j == |s| then [] else [s[..j]] + Split(s[j + 1..])
  }

  function Joined(lines: seq<seq<byte>>): seq<byte> {
    if lines == [] then [] else lines[0] + [10] + Joined(lines[1..])
  }

  lemma JoinedCons(line: seq<byte>, lines: seq<seq<byte>>, rest: seq<byte>)
    ensures Joined([line] + lines) + rest == line + [10] + (Joined(lines) + rest)
  {
    assert ([line] + lines)[1..] == lines;
  }

  /** The lines of a split hold no newline; with a newline behind each, and a last part without any, they are the
      whole. */
  lemma {:induction false} SplitJoins(s: seq<byte>) returns (rest: seq<byte>)
    ensures s == Joined(Split(s)) + rest && 10 !in rest
    ensures forall line :: line in Split(s) ==> 10 !in line
    decreases |s|
  {
    hide Newline;
    var j := Newline(s);
    NewlineIsFirst(s);
    if j == |s| {
      rest := s;
      assert [] + rest == rest;
    } else {
      hide Joined;
      var line, more := s[..j], s[j + 1..];
      rest := SplitJoins(more);
      assert s == line + [10] + more && 10 !in line;
      JoinedCons(line, Split(more), rest);
    }
  }

  predicate NulFree(s: seq<byte>) {
    forall i :: 0 <= i < |s| ==> s[i] != NUL
  }

  /** At the start of every complete line ahead, the window has no NUL after its first byte. */
  predicate Clean(ahead: seq<byte>)
    decreases |ahead|
  {
    var j := Newline(ahead);
    j == |ahead| || (LastNul(Window(ahead)) <= 0 && Clean(ahead[j + 1..]))
  }

  /** Total length of lines, newlines included. */
  function Weight(texts: seq<seq<byte>>): nat {
    if texts == [] then 0 else |texts[0]| + 1 + Weight(texts[1..])
  }

  lemma WeightCons(text: seq<byte>, texts: seq<seq<byte>>)
    ensures Weight([text] + texts) == |text| + 1 + Weight(texts)
  {
    assert ([text] + texts)[1..] == texts;
  }

  /** Without its first byte, what is ahead has one byte less in complete lines, if it has any. */
  lemma SplitTail(ahead: seq<byte>)
    requires ahead != []
    ensures Newline(ahead) == |ahead| ==> Weight(Split(ahead)) == Weight(Split(ahead[1..]))
    ensures Newline(ahead) < |ahead| ==> Weight(Split(ahead)) == Weight(Split(ahead[1..])) + 1
  {
    hide Weight;
    var j := Newline(ahead);
    if j < |ahead| {
      WeightCons(ahead[..j], Split(ahead[j + 1..]));
      if j > 0 {
        assert ahead[1..][..j - 1] == ahead[1..j] && ahead[1..][j..] == ahead[j + 1..];
        WeightCons(ahead[1..j], Split(ahead[j + 1..]));
      }
    }
  }

  /** Bytes thrown away in front of a complete line are missing from the lines. */
  lemma {:induction false} SplitLater(ahead: seq<byte>, n: nat)
    requires n <= |ahead|
    ensures Weight(Split(ahead[n..])) <= Weight(Split(ahead))
    ensures n > 0 && Newline(ahead) < |ahead| ==> Weight(Split(ahead[n..])) < Weight(Split(ahead))
    decreases n
  {
    hide Split, Weight, Newline;
    if n == 0 {
      assert ahead[0..] == ahead;
    } else {
      SplitTail(ahead);
      SplitLater(ahead[1..], n - 1);
      assert ahead[1..][n - 1..] == ahead[n..];
    }
  }

  lemma TextsLine(text: seq<byte>, chunks: seq<Chunk>)
    ensures Texts([Line(text)] + chunks) == [text] + Texts(chunks)
  {
    assert ([Line(text)] + chunks)[1..] == chunks;
  }

  lemma TextsDiscarded(bytes: seq<byte>, chunks: seq<Chunk>)
    ensures Texts([Discarded(bytes)] + chunks) == Texts(chunks)
  {
    assert ([Discarded(bytes)] + chunks)[1..] == chunks;
    assert [] + Texts(chunks) == Texts(chunks);
  }

  lemma {:induction false} PassLineWeighs(ahead: seq<byte>)
    ensures Weight(Texts(PassLine(ahead))) <= Weight(Split(ahead))
    decreases |ahead|, 0
  {
    hide Pass, LastNul, Window, Newline;
    var j := Newline(ahead);
    if j < |ahead| {
      PassWeighs(ahead[j + 1..]);
      TextsLine(ahead[..j], Pass(ahead[j + 1..]));
      WeightCons(ahead[..j], Texts(Pass(ahead[j + 1..])));
      WeightCons(ahead[..j], Split(ahead[j + 1..]));
    }
  }

  lemma {:induction false} PassFromWeighs(reading: bool, ahead: seq<byte>, n: nat)
    requires 1 <= n <= |ahead|
    ensures Weight(Texts([Discarded(ahead[..n])] + PassFrom(reading, ahead[n..]))) <= Weight(Split(ahead[n..]))
    decreases |ahead|, 0
  {
    hide Pass, PassLine, Weight, Split, LastNul, Newline;
    TextsDiscarded(ahead[..n], PassFrom(reading, ahead[n..]));
    if reading {
      PassLineWeighs(ahead[n..]);
    } else {
      PassWeighs(ahead[n..]);
      assert PassFrom(reading, ahead[n..]) == Pass(ahead[n..]);
    }
  }

  /** A pass never sends more than the complete lines ahead. */
  lemma {:induction false} PassWeighs(ahead: seq<byte>)
    ensures Weight(Texts(Pass(ahead))) <= Weight(Split(ahead))
    decreases |ahead|, 1
  {
    hide Pass, PassLine, LastNul, Newline, Texts, Weight, Split;
    var i := LastNul(Window(ahead));
    PassRound(ahead, i);
    if i <= 0 {
      PassLineWeighs(ahead);
    } else {
      PassFromWeighs(i + 1 < PEEK_SIZE, ahead, i + 1);
      SplitLater(ahead, i + 1);
    }
  }

  lemma PassLineCons(ahead: seq<byte>, j: nat)
    requires j == Newline(ahead) < |ahead|
    ensures Texts(PassLine(ahead)) == [ahead[..j]] + Texts(Pass(ahead[j + 1..]))
    ensures Split(ahead) == [ahead[..j]] + Split(ahead[j + 1..])
  {
    hide Pass, Texts, LastNul, Newline, Window;
    TextsLine(ahead[..j], Pass(ahead[j + 1..]));
  }

  /** A pass sends exactly the complete lines ahead if and only if no window at the start of one of them has a NUL
      after its first byte: any other NUL costs at least a part of a line. */
  lemma {:induction false} PassExact(ahead: seq<byte>)
    ensures Texts(Pass(ahead)) == Split(ahead) <==> Clean(ahead)
    decreases |ahead|
  {
    hide Pass, PassLine, Texts, Weight, LastNul, Newline;
    var i, j := LastNul(Window(ahead)), Newline(ahead);
    PassRound(ahead, i);
    if j == |ahead| {
      PassWeighs(ahead);
      NoWeight([]);
      NoWeight(Texts(Pass(ahead)));
    } else if i <= 0 {
      PassExact(ahead[j + 1..]);
      PassLineCons(ahead, j);
      SameTail(ahead[..j], Texts(Pass(ahead[j + 1..])), Split(ahead[j + 1..]));
    } else {
      PassFromWeighs(i + 1 < PEEK_SIZE, ahead, i + 1);
      SplitLater(ahead, i + 1);
    }
  }

  lemma NoWeight(texts: seq<seq<byte>>)
    ensures Weight(texts) == 0 <==> texts == []
  {}

  lemma SameTail<T>(x: T, a: seq<T>, b: seq<T>)
    ensures [x] + a == [x] + b <==> a == b
  {
    assert ([x] + a)[1..] == a && ([x] + b)[1..] == b;
  }

  lemma NothingAhead()
    ensures Texts(Pass([])) == [] && Split([]) == []
  {
    PassRound([], -1);
  }

  /** It does happen: of the complete lines "a" and NUL "b", only "b" is sent. */
  lemma CompleteLineDiscarded(ahead: seq<byte>)
    requires ahead == [97, 10, 0, 98, 10]
    ensures Split(ahead) == [[97], [0, 98]] && Texts(Pass(ahead)) == [[98]]
  {
    hide LastNul, Newline, Pass, PassLine, Split, Texts;
    var first: seq<byte>, sent: seq<byte>, second: seq<byte> := [97], [98], [NUL, 98];
    assert ahead == first + [NL] + (second + [NL]) && ahead[..3] == first + [NL, NUL] && ahead[3..] == sent + [NL];
    NothingAhead();
    LastNulAt(ahead, 2);
    PassRound(ahead, 2);
    TextsDiscarded(ahead[..3], PassLine(ahead[3..]));
    OneLine(sent, []);
    OneLine(first, second + [NL]);
    OneLine(second, []);
    assert second + [NL] + [] == second + [NL] && sent + [NL] + [] == sent + [NL];
  }

  lemma OneLine(text: seq<byte>, rest: seq<byte>)
    requires forall j :: 0 <= j < |text| ==> text[j] != NL
    ensures Texts(PassLine(text + [NL] + rest)) == [text] + Texts(Pass(rest))
    ensures Split(text + [NL] + rest) == [text] + Split(rest)
  {
    var all := text + [NL] + rest;
    NewlineAt(all, |text|);
    PassLineCons(all, |text|);
    assert all[..|text|] == text && all[|text| + 1..] == rest;
  }

  /** How far the NUL loop sees: a single NUL behind the first byte is found, and everything up to it thrown away,
      exactly if it is among the first 1024 bytes; one at the very start is kept. */
  lemma NulReach(ahead: seq<byte>, n: nat)
    requires n < |ahead| && forall j :: 0 <= j < |ahead| ==> (ahead[j] == 0 <==> j == n)
    ensures 0 < n < 1024 ==>
      Pass(ahead) == [Discarded(ahead[..n + 1])] + PassFrom(n < 1023, ahead[n + 1..])
    ensures n == 0 || n >= 1024 ==> Pass(ahead) == PassLine(ahead)
  {
    if n < 1024 {
      LastNulAt(Window(ahead), n);
      PassRound(ahead, n);
    } else {
      LastNulIsLast(Window(ahead));
      PassRound(ahead, -1);
    }
  }

  /** Nothing but the position of the last NUL matters. */
  lemma LastNulAt(b: seq<byte>, n: nat)
    requires n < |b| && b[n] == NUL && forall j :: n < j < |b| ==> b[j] != NUL
    ensures LastNul(b) == n
  {
    LastNulIsLast(b);
  }

  lemma {:induction false} NulFreeIsClean(ahead: seq<byte>)
    requires NulFree(ahead)
    ensures Clean(ahead) && LastNul(Window(ahead)) == -1
    decreases |ahead|
  {
    LastNulIsLast(Window(ahead));
    if Newline(ahead) < |ahead| {
      NulFreeIsClean(ahead[Newline(ahead) + 1..]);
    }
  }

  /** Without NULs a pass is a split at newlines, and nothing is discarded. */
  lemma {:induction false} PassSplits(ahead: seq<byte>)
    requires NulFree(ahead)
    ensures Texts(Pass(ahead)) == Split(ahead)
    ensures forall c :: c in Pass(ahead) ==> c.Line?
    decreases |ahead|
  {
    hide Pass, Split, Texts, LastNul, Newline, Clean;
    var j := Newline(ahead);
    NulFreeIsClean(ahead);
    PassExact(ahead);
    PassRound(ahead, -1);
    if j < |ahead| {
      PassSplits(ahead[j + 1..]);
    }
  }

  lemma {:induction false} FlattenConcat(a: seq<Chunk>, b: seq<Chunk>)
    ensures Flatten(a + b) == Flatten(a) + Flatten(b)
    decreases |b|
  {
    if b == [] {
      assert a + b == a;
    } else {
      assert (a + b)[..|a + b| - 1] == a + b[..|b| - 1];
      FlattenConcat(a, b[..|b| - 1]);
    }
  }

  lemma FlattenCons(c: Chunk, b: seq<Chunk>)
    ensures Flatten([c] + b) == Raw(c) + Flatten(b)
  {
    FlattenConcat([c], b);
    assert [c][..0] == [];
  }

  ghost predicate Consumed(ahead: seq<byte>, chunks: seq<Chunk>, rest: seq<byte>) {
    ahead == Flatten(chunks) + rest && Newline(rest) == |rest|
  }

  lemma ConsumedCons(c: Chunk, ahead: seq<byte>, chunks: seq<Chunk>, rest: seq<byte>)
    requires Consumed(ahead, chunks, rest)
    ensures Consumed(Raw(c) + ahead, [c] + chunks, rest)
  {
    FlattenCons(c, chunks);
    assert Raw(c) + (Flatten(chunks) + rest) == Raw(c) + Flatten(chunks) + rest;
  }

  lemma {:induction false} PassLineConsumes(ahead: seq<byte>) returns (rest: seq<byte>)
    ensures Consumed(ahead, PassLine(ahead), rest)
    decreases |ahead|, 0
  {
    hide Pass, LastNul, Newline, Window;
    var j := Newline(ahead);
    NewlineIsFirst(ahead);
    if j == |ahead| {
      rest := ahead;
    } else {
      var c, tail := Line(ahead[..j]), ahead[j + 1..];
      assert Raw(c) + tail == ahead;
      rest := PassConsumes(tail);
      ConsumedCons(c, tail, Pass(tail), rest);
    }
  }

  lemma {:induction false} PassFromConsumes(reading: bool, ahead: seq<byte>, n: nat) returns (rest: seq<byte>)
    requires 1 <= n <= |ahead|
    ensures Consumed(ahead, [Discarded(ahead[..n])] + PassFrom(reading, ahead[n..]), rest)
    decreases |ahead|, 0
  {
    hide Pass, PassLine, Flatten, LastNul, Newline, Consumed;
    var tail := ahead[n..];
    assert Raw(Discarded(ahead[..n])) + tail == ahead;
    if reading {
      rest := PassLineConsumes(tail);
    } else {
      rest := PassConsumes(tail);
    }
    ConsumedCons(Discarded(ahead[..n]), tail, PassFrom(reading, tail), rest);
  }

  /** A pass consumes a prefix of what is ahead and leaves no complete line behind: with NULs too, every byte is
      in a line sent, in a discarded stretch, or in the partial line. */
  lemma {:induction false} PassConsumes(ahead: seq<byte>) returns (rest: seq<byte>)
    ensures Consumed(ahead, Pass(ahead), rest)
    decreases |ahead|, 1
  {
    hide Pass, PassLine, Flatten, LastNul, Newline, Consumed;
    var i := LastNul(Window(ahead));
    PassRound(ahead, i);
    if i <= 0 {
      rest := PassLineConsumes(ahead);
    } else {
      rest := PassFromConsumes(i + 1 < PEEK_SIZE, ahead, i + 1);
    }
  }
}
