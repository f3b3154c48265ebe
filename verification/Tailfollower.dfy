/** The loop of Tailfollower.follow as it runs on its fields, between two waits, over a file at rest. */
module TailfollowerLoop {
  import opened Bits
  import opened Follower

  lemma Assoc<T>(a: seq<T>, b: seq<T>, c: seq<T>)
    ensures a + (b + c) == a + b + c
  {}

  lemma Cut(buf: seq<byte>, tail: seq<byte>, n: nat)
    requires n <= |buf|
    ensures (buf + tail)[..n] == buf[..n] && (buf + tail)[n..] == buf[n..] + tail
  {}

  lemma TailCut(buf: seq<byte>, content: seq<byte>, pos: nat, k: nat)
    requires pos + k <= |content|
    ensures buf + content[pos..] == buf + content[pos..pos + k] + content[pos + k..]
  {
    assert content[pos..] == content[pos..pos + k] + content[pos + k..];
  }

  /** One round of the NUL loop that discards something, on the bytes ahead. */
  lemma Round(ahead: seq<byte>, buf: seq<byte>, tail: seq<byte>, i: int)
    requires ahead == buf + tail && Window(buf) == Window(ahead) && i == LastNul(Window(buf)) && i > 0
    ensures Pass(ahead) == [Discarded(buf[..i + 1])] + PassFrom(i + 1 < PEEK_SIZE, buf[i + 1..] + tail)
  {
    Cut(buf, tail, i + 1);
    PassRound(ahead, i);
  }

  lemma NothingFlat()
    ensures Flatten([]) == []
  {}

  lemma AtStart(f: Follower)
    requires Accounted(f) && f.pc == Peeking && f.buf == []
    ensures f.pos == f.start + |Flatten(f.ledger)|
  {}

  lemma NoTexts(dropped: seq<Chunk>)
    requires |dropped| <= 1 && forall c :: c in dropped ==> c.Discarded?
    ensures Texts(dropped) == []
  {
    if dropped != [] {
      assert dropped[0] in dropped && dropped[1..] == [];
    }
  }

  lemma AtEnd(s: seq<byte>, buf: seq<byte>, tail: seq<byte>)
    requires Newline(s) == |s| && (Newline(buf) < |buf| || tail == [])
    ensures Newline(s + (buf + tail)) == |s| + Newline(buf)
  {
    NewlineConcat(s, buf + tail);
    NewlineConcat(buf, tail);
    assert tail == [] ==> buf + tail == buf;
  }

  /** What ends a wait: a write or chmod event (with a file that is there or gone), any other event of the file, or the
      timeout (with a path that names the open file or another). */
  datatype Wakeup = Changed(gone: bool) | Other | Timeout(same: bool)

  /** Whether what follows is read from the first byte: after a rewatch, or if the file is shorter than t.offset. */
  predicate StartsOver(w: Wakeup, offset: nat, size: nat) {
    match w
    case Changed(gone) => gone || offset > size
    case Other => true
    case Timeout(same) => !same
  }

  class Tailfollower {
    var pos: nat          // position of t.file
    var buf: seq<byte>    // buffered bytes of t.reader
    var offset: nat       // t.offset
    ghost var f: Follower // the state of the machine that this object runs

    ghost predicate Valid()
      reads this
    {
      Accounted(f) && f.pc != Closed && pos == f.pos && buf == f.buf && offset == f.offset
    }

    /** Bytes that the loop has not looked at: the buffer, then the rest of the file. */
    function Ahead(content: seq<byte>): seq<byte>
      reads this
    {
      buf + if pos <= |content| then content[pos..] else []
    }

    constructor (at: nat)
      ensures Valid() && f == Opened(at) && pos == at && buf == []
    {
      pos, buf, offset := at, [], 0;
      f := Opened(at);
    }

    /** One read from the handle: any number of bytes that fits, at least one. */
    method Fill(content: seq<byte>) returns (ghost moves: seq<Move>)
      requires Valid() && pos < |content| && |buf| < BUF_SIZE
      requires (f.pc == Peeking && |buf| < PEEK_SIZE) || (f.pc == Reading && Newline(buf) == |buf|)
      modifies this
      ensures Valid() && IsRun(old(f), moves) && f == Run(old(f), moves)
      ensures f == old(f).(pos := pos, buf := buf) && old(pos) < pos <= |content|
      ensures Ahead(content) == old(Ahead(content))
    {
      hide Newline, LastNul, Window, Accounted;
      var k :| 1 <= k <= BUF_SIZE - |buf| && k <= |content| - pos;
      ghost var m := Move(|content|, Event.Fill(k), content[pos..pos + k]);
      StepAccounted(|content|, f, m.event, m.read);
      moves := [m];
      RunOne(f, m);
      TailCut(buf, content, pos, k);
      buf := buf + content[pos..pos + k];
      pos := pos + k;
      f := Step(f, m);
    }

    /** bufio's Peek: read until the window is full or the file ends. */
    method Peek(content: seq<byte>) returns (ghost moves: seq<Move>)
      requires Valid() && f.pc == Peeking
      modifies this
      ensures Valid() && IsRun(old(f), moves) && f == Run(old(f), moves)
      ensures f == old(f).(pos := pos, buf := buf)
      ensures Ahead(content) == old(Ahead(content)) && Window(buf) == Window(Ahead(content))
      ensures |buf| >= PEEK_SIZE || pos >= |content|
    {
      moves := [];
      while |buf| < PEEK_SIZE && pos < |content|
        invariant Valid() && IsRun(old(f), moves) && f == Run(old(f), moves)
        invariant f == old(f).(pos := pos, buf := buf)
        invariant Ahead(content) == old(Ahead(content))
        decreases |content| - pos
      {
        ghost var more := Fill(content);
        RunConcat(old(f), moves, more);
        moves := moves + more;
      }
    }

    /** The step of the machine that mirrors what the code has just done. */
    ghost method Mirror(from: Follower, moves: seq<Move>, content: seq<byte>, e: Event) returns (all: seq<Move>)
      requires Accounted(f) && f.pc != Closed && Enabled(|content|, f, e) && !e.Fill? && !e.Stopped?
      requires IsRun(from, moves) && f == Run(from, moves)
      modifies this`f
      ensures f == Apply(|content|, old(f), e, []) && Accounted(f) && f.pc != Closed
      ensures IsRun(from, all) && f == Run(from, all)
    {
      var m := Move(|content|, e, []);
      StepAccounted(|content|, f, e, []);
      RunOne(f, m);
      RunConcat(from, moves, [m]);
      all := moves + [m];
      f := Step(f, m);
    }

    /** What a round of the NUL loop does with the window it has peeked: it discards everything up to the last NUL,
        unless that is the first byte. */
    method DiscardWindow(content: seq<byte>, i: int, ghost from: Follower, ghost before: seq<Move>)
      returns (ghost moves: seq<Move>, ghost dropped: seq<Chunk>)
      requires Valid() && f.pc == Peeking && (|buf| >= PEEK_SIZE || pos >= |content|)
      requires i == LastNul(Window(buf)) && IsRun(from, before) && f == Run(from, before)
      modifies this
      ensures Valid() && IsRun(from, moves) && f == Run(from, moves)
      ensures dropped == if i > 0 then [Discarded(old(buf)[..i + 1])] else []
      ensures f == old(f).(buf := buf, ledger := old(f.ledger) + dropped,
                           pc := if i + 1 < PEEK_SIZE then Reading else Peeking)
      ensures buf == (if i > 0 then old(buf)[i + 1..] else old(buf)) && pos == old(pos)
    {
      dropped := if i > 0 then [Discarded(buf[..i + 1])] else [];
      moves := Mirror(from, before, content, Peeked);
      if i > 0 {
        buf := buf[i + 1..];
      }
    }

    /** One round of the NUL loop. */
    method DiscardOnce(content: seq<byte>, ghost ahead: seq<byte>)
      returns (done: bool, ghost moves: seq<Move>, ghost dropped: seq<Chunk>)
      requires Valid() && f.pc == Peeking && ahead == Ahead(content)
      modifies this
      ensures Valid() && IsRun(old(f), moves) && f == Run(old(f), moves)
      ensures f.pc == (if done then Reading else Peeking) && f.frag == []
      ensures f.start == old(f.start) && f.offset == old(f.offset) && f.ledger == old(f.ledger) + dropped
      ensures Texts(dropped) == []
      ensures Pass(ahead) == dropped + PassFrom(done, Ahead(content))
      ensures |Ahead(content)| <= |ahead| && (!done ==> |Ahead(content)| < |ahead|)
    {
      hide LastNul, Run, IsRun, Pass, PassFrom, Texts;
      moves := Peek(content);
      var i := LastNul(Window(buf));
      done := i + 1 < PEEK_SIZE;
      ghost var window, tail := buf, if pos <= |content| then content[pos..] else [];
      moves, dropped := DiscardWindow(content, i, old(f), moves);
      NoTexts(dropped);
      if i > 0 {
        Round(ahead, window, tail, i);
      } else {
        PassRound(ahead, i);
        assert [] + PassFrom(true, ahead) == PassFrom(true, ahead);
      }
    }

    /** The inner loop that discards everything up to the last NUL of the window. */
    method DiscardNuls(content: seq<byte>, ghost ahead: seq<byte>)
      returns (ghost moves: seq<Move>, ghost dropped: seq<Chunk>)
      requires Valid() && f.pc == Peeking && ahead == Ahead(content)
      modifies this
      ensures Valid() && IsRun(old(f), moves) && f == Run(old(f), moves)
      ensures f.pc == Reading && f.frag == []
      ensures f.start == old(f.start) && f.offset == old(f.offset) && f.ledger == old(f.ledger) + dropped
      ensures Texts(dropped) == []
      ensures Pass(ahead) == dropped + PassFrom(true, Ahead(content))
      ensures |Ahead(content)| <= |ahead|
    {
      hide Pass, Accounted, Run, IsRun;
      ghost var f0 := f;
      var done;
      done, moves, dropped := DiscardOnce(content, ahead);
      while !done
        invariant Valid() && IsRun(f0, moves) && f == Run(f0, moves)
        invariant f.pc == (if done then Reading else Peeking) && f.frag == []
        invariant f.start == f0.start && f.offset == f0.offset && f.ledger == f0.ledger + dropped
        invariant Texts(dropped) == []
        invariant Pass(ahead) == dropped + PassFrom(done, Ahead(content)) && |Ahead(content)| <= |ahead|
        decreases !done, |Ahead(content)|
      {
        ghost var more, rest;
        done, more, rest := DiscardOnce(content, Ahead(content));
        RunConcat(f0, moves, more);
        moves := moves + more;
        TextsConcat(dropped, rest);
        Assoc(f0.ledger, dropped, rest);
        Assoc(dropped, rest, PassFrom(done, Ahead(content)));
        dropped := dropped + rest;
      }
    }

    /** A full buffer without a newline is set aside. */
    method Spill(content: seq<byte>, s: seq<byte>, ghost ahead: seq<byte>, ghost from: Follower,
                 ghost before: seq<Move>)
      returns (t: seq<byte>, ghost moves: seq<Move>)
      requires Valid() && f.pc == Reading && f.frag == s && |buf| >= BUF_SIZE && Newline(buf) == |buf|
      requires Newline(s) == |s| && s + Ahead(content) == ahead && IsRun(from, before) && f == Run(from, before)
      modifies this
      ensures Valid() && IsRun(from, moves) && f == Run(from, moves)
      ensures f == old(f).(buf := [], frag := t) && buf == [] && pos == old(pos)
      ensures Newline(t) == |t| && t + Ahead(content) == ahead
    {
      hide Run, IsRun, Accounted;
      Assoc(s, buf, if pos <= |content| then content[pos..] else []);
      NewlineConcat(s, buf);
      moves := Mirror(from, before, content, Spilled);
      t := s + buf;
      buf := [];
    }

    /** The rounds of ReadBytes that find no newline: full buffers are set aside, and more is read. */
    method Collect(content: seq<byte>, ghost ahead: seq<byte>, ghost from: Follower, ghost before: seq<Move>)
      returns (s: seq<byte>, ghost moves: seq<Move>)
      requires ahead == Ahead(content)
      requires Valid() && f.pc == Reading && f.frag == [] && IsRun(from, before) && f == Run(from, before)
      modifies this
      ensures Valid() && IsRun(from, moves) && f == Run(from, moves)
      ensures f == old(f).(pos := pos, buf := buf, frag := s)
      ensures Newline(s) == |s| && s + Ahead(content) == ahead
      ensures Newline(buf) < |buf| || (|buf| < BUF_SIZE && pos >= |content|)
    {
      hide Newline, Accounted, Run, IsRun;
      ghost var f0 := f;
      s, moves := [], before;
      while Newline(buf) == |buf| && (|buf| >= BUF_SIZE || pos < |content|)
        invariant Valid() && IsRun(from, moves) && f == Run(from, moves)
        invariant f == f0.(pos := pos, buf := buf, frag := s)
        invariant Newline(s) == |s| && s + Ahead(content) == ahead
        decreases if pos <= |content| then |content| - pos else 0, |buf|
      {
        if |buf| >= BUF_SIZE {
          s, moves := Spill(content, s, ahead, from, moves);
        } else {
          ghost var more := Fill(content);
          RunConcat(from, moves, more);
          moves := moves + more;
        }
      }
    }

    /** bufio's ReadBytes: up to the first newline ahead, or everything to the end of the file. */
    method ReadBytes(content: seq<byte>, ghost ahead: seq<byte>, ghost from: Follower, ghost before: seq<Move>)
      returns (s: seq<byte>, eof: bool, ghost moves: seq<Move>)
      requires ahead == Ahead(content)
      requires Valid() && f.pc == Reading && f.frag == [] && IsRun(from, before) && f == Run(from, before)
      modifies this
      ensures Valid() && IsRun(from, moves) && f == Run(from, moves)
      ensures f.start == old(f.start) && f.ledger == old(f.ledger)
      ensures eof <==> Newline(ahead) == |ahead|
      ensures eof ==> f.pc == Reading && Enabled(|content|, f, HitEnd) && s == f.frag + f.buf
      ensures !eof ==> s + Ahead(content) == ahead && |s| == Newline(ahead) + 1
      ensures !eof ==> f.pc == Sending(s[..|s| - 1])
    {
      hide Newline, Accounted, Apply, Run, IsRun;
      s, moves := Collect(content, ahead, from, before);
      ghost var tail := if pos <= |content| then content[pos..] else [];
      AtEnd(s, buf, tail);
      var j := Newline(buf);
      if j == |buf| {
        return s + buf, true, moves;
      }
      LineFound(s, buf, tail, j);
      s, moves := TakeLine(content, s, j, from, moves);
      eof := false;
    }

    method TakeLine(content: seq<byte>, frag: seq<byte>, j: nat, ghost from: Follower, ghost before: seq<Move>)
      returns (s: seq<byte>, ghost moves: seq<Move>)
      requires Valid() && f.pc == Reading && f.frag == frag && j == Newline(buf) < |buf|
      requires IsRun(from, before) && f == Run(from, before)
      modifies this
      ensures Valid() && IsRun(from, moves) && f == Run(from, moves)
      ensures s == frag + old(buf)[..j + 1] && buf == old(buf)[j + 1..] && pos == old(pos)
      ensures f == old(f).(pc := Sending(frag + old(buf)[..j]), buf := buf, frag := [])
    {
      s := frag + buf[..j + 1];
      moves := Mirror(from, before, content, Found);
      buf := buf[j + 1..];
    }

    /** End of file: the handle goes back over the partial line, and the reader is reset. */
    method SeekBack(content: seq<byte>, s: seq<byte>, ghost from: Follower, ghost before: seq<Move>)
      returns (ghost moves: seq<Move>)
      requires Valid() && Enabled(|content|, f, HitEnd) && s == f.frag + f.buf
      requires IsRun(from, before) && f == Run(from, before)
      modifies this
      ensures Valid() && IsRun(from, moves) && f == Run(from, moves)
      ensures f.pc == Waiting && f.start == old(f.start) && f.ledger == old(f.ledger)
    {
      moves := Mirror(from, before, content, HitEnd);
      offset := pos - |s|;
      pos := offset;
      buf := [];
    }

    /** The line is received from the channel. */
    method SendLine(content: seq<byte>, line: seq<byte>, ghost from: Follower, ghost before: seq<Move>)
      returns (ghost moves: seq<Move>)
      requires Valid() && f.pc == Sending(line) && IsRun(from, before) && f == Run(from, before)
      modifies this`f
      ensures Valid() && IsRun(from, moves) && f == Run(from, moves)
      ensures f == old(f).(pc := Peeking, ledger := old(f.ledger) + [Line(line)])
    {
      moves := Mirror(from, before, content, Sent);
    }

    /** A write or chmod event on a file that is there: back to the first byte if the file has become shorter than
        what was read of it. */
    method OnWrite(content: seq<byte>)
      requires Valid() && f.pc == Waiting
      modifies this
      ensures Valid() && f == Apply(|content|, old(f), Written, []) && f.pc == Peeking && buf == []
      ensures pos == (if old(offset) > |content| then 0 else old(offset)) && offset == pos
      ensures f.ledger == if old(offset) > |content| then [] else old(f.ledger)
    {
      WaitPoint(f);
      NothingFlat();
      if offset > |content| {
        offset := 0;
        pos := 0;
        buf := [];
      }
      f := Apply(|content|, f, Written, []);
    }

    /** rewatch: a new handle at the start of whatever the path names, and a new reader; t.offset is left alone. */
    method Rewatch(content: seq<byte>)
      requires Valid() && f.pc == Waiting
      modifies this
      ensures Valid() && f == Apply(|content|, old(f), Reopened, []) && f.pc == Peeking
      ensures pos == 0 && buf == [] && offset == old(offset) && f.ledger == []
    {
      NothingFlat();
      pos, buf := 0, [];
      f := Apply(|content|, f, Reopened, []);
    }

    /** The timeout with the same file: the loop goes on reading where it is. */
    method OnTick(content: seq<byte>)
      requires Valid() && f.pc == Waiting
      modifies this`f
      ensures Valid() && f == Apply(|content|, old(f), Ticked, []) && f.pc == Peeking
      ensures buf == [] && pos == offset && f.ledger == old(f.ledger)
    {
      WaitPoint(f);
      f := Apply(|content|, f, Ticked, []);
    }

    /** The select. */
    method OnWakeup(w: Wakeup, content: seq<byte>)
      requires Valid() && f.pc == Waiting
      modifies this
      ensures Valid() && f.pc == Peeking && buf == []
      ensures pos == if StartsOver(w, old(offset), |content|) then 0 else old(offset)
      ensures f.ledger == if StartsOver(w, old(offset), |content|) then [] else old(f.ledger)
    {
      hide Accounted, Apply;
      match w {
        case Changed(gone) =>
          if gone {
            Rewatch(content);
          } else {
            OnWrite(content);
          }
        case Other =>
          Rewatch(content);
        case Timeout(same) =>
          if same {
            OnTick(content);
          } else {
            Rewatch(content);
          }
      }
    }

    /** From one wait to the next, over a file that rests meanwhile: what is sent is the pass over the file from its
        first byte after a rewatch or a truncation, else from t.offset; t.offset is then behind all of it. */
    method Wake(w: Wakeup, content: seq<byte>) returns (lines: seq<seq<byte>>, ghost done: seq<Chunk>)
      requires Valid() && f.pc == Waiting
      modifies this
      ensures Valid() && f.pc == Waiting
      ensures var from := if StartsOver(w, old(offset), |content|) then 0 else old(offset);
        && done == Pass(if from <= |content| then content[from..] else []) && lines == Texts(done)
        && offset == from + |Flatten(done)|
    {
      hide Pass, Texts, Apply, IsRun, Run, Flatten, Clean, Split;
      OnWakeup(w, content);
      AtStart(f);
      ghost var before, moves := f.ledger, [];
      ghost var rest := if pos <= |content| then content[pos..] else [];
      assert [] + rest == rest;
      lines, moves, done := ReadToEnd(content, rest);
      WaitPoint(f);
      FlattenConcat(before, done);
    }

    /** The loop between two waits: it sends the lines of the pass ahead, which are all complete lines exactly if no
        NUL is in the way, seeks back over the partial one and stops. It terminates on every file and from every
        position, past the end included. */
    method ReadToEnd(content: seq<byte>, ghost ahead: seq<byte>)
      returns (lines: seq<seq<byte>>, ghost moves: seq<Move>, ghost done: seq<Chunk>)
      requires Valid() && f.pc == Peeking && ahead == Ahead(content)
      modifies this
      ensures Valid() && f.pc == Waiting && IsRun(old(f), moves) && f == Run(old(f), moves)
      ensures done == Pass(ahead) && lines == Texts(done)
      ensures lines == Split(ahead) <==> Clean(ahead)
      ensures f.start == old(f.start) && f.ledger == old(f.ledger) + done
    {
      hide Pass, Split, Clean, Accounted, Enabled, Apply;
      ghost var f0 := f;
      PassExact(ahead);
      lines, moves, done := [], [], [];
      while true
        invariant Valid() && f.pc == Peeking && IsRun(f0, moves) && f == Run(f0, moves)
        invariant f.start == f0.start && f.ledger == f0.ledger + done
        invariant Pass(ahead) == done + Pass(Ahead(content)) && lines == Texts(done)
        decreases |Ahead(content)|
      {
        var s, eof;
        ghost var part;
        s, eof, moves, part := NextLine(content, Ahead(content), f0, moves);
        if eof {
          moves := SeekBack(content, s, f0, moves);
          TextsConcat(done, part);
          Assoc(f0.ledger, done, part);
          done := done + part;
          return;
        }
        var line := s[..|s| - 1];
        moves := SendLine(content, line, f0, moves);
        lines := lines + [line];
        Settle(f0.ledger, done, part, line, Pass(Ahead(content)));
        done := done + (part + [Line(line)]);
      }
    }

    /** One round of that loop up to the point where it knows what to do: discard, then read. */
    method NextLine(content: seq<byte>, ghost ahead: seq<byte>, ghost from: Follower, ghost before: seq<Move>)
      returns (s: seq<byte>, eof: bool, ghost moves: seq<Move>, ghost dropped: seq<Chunk>)
      requires ahead == Ahead(content)
      requires Valid() && f.pc == Peeking && IsRun(from, before) && f == Run(from, before)
      modifies this
      ensures Valid() && IsRun(from, moves) && f == Run(from, moves)
      ensures f.start == old(f.start) && f.ledger == old(f.ledger) + dropped && Texts(dropped) == []
      ensures eof ==> f.pc == Reading && Enabled(|content|, f, HitEnd) && s == f.frag + f.buf
      ensures eof ==> Pass(ahead) == dropped
      ensures !eof ==> s != [] && f.pc == Sending(s[..|s| - 1]) && |Ahead(content)| < |ahead|
      ensures !eof ==> Pass(ahead) == dropped + ([Line(s[..|s| - 1])] + Pass(Ahead(content)))
    {
      ghost var more;
      more, dropped := DiscardNuls(content, ahead);
      RunConcat(from, before, more);
      ghost var next := Ahead(content);
      s, eof, moves := ReadBytes(content, next, from, before + more);
      if !eof {
        PassLineSplit(next, s, Ahead(content));
      }
    }
  }

  lemma LineFound(s: seq<byte>, buf: seq<byte>, tail: seq<byte>, j: nat)
    requires j < |buf|
    ensures (s + buf[..j + 1])[..|s| + j] == s + buf[..j]
    ensures s + buf[..j + 1] + (buf[j + 1..] + tail) == s + (buf + tail)
  {}

  lemma PassLineSplit(ahead: seq<byte>, s: seq<byte>, rest: seq<byte>)
    requires ahead == s + rest && |s| == Newline(ahead) + 1
    ensures PassLine(ahead) == [Line(s[..|s| - 1])] + Pass(rest)
  {
    assert ahead[..|s| - 1] == s[..|s| - 1] && ahead[|s|..] == rest;
  }

  lemma Settle(ledger: seq<Chunk>, done: seq<Chunk>, part: seq<Chunk>, line: seq<byte>, rest: seq<Chunk>)
    requires Texts(part) == []
    ensures ledger + done + part + [Line(line)] == ledger + (done + (part + [Line(line)]))
    ensures done + (part + ([Line(line)] + rest)) == done + (part + [Line(line)]) + rest
    ensures Texts(done + (part + [Line(line)])) == Texts(done) + [line]
  {
    TextsConcat(part, [Line(line)]);
    TextsConcat(done, part + [Line(line)]);
    OneText(line);
    hide Texts;
    assert [] + [line] == [line];
  }

  lemma OneText(line: seq<byte>)
    ensures Texts([Line(line)]) == [line]
  {
    assert [Line(line)][1..] == [];
  }
}
