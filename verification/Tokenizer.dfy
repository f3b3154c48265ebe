/** extractArgs of command/parse.go: splitting a command line into arguments quoted with backticks. */
module Tokenizer {

  /** unicode.IsSpace */
  predicate IsSpace(r: char) {
    || '\t' <= r <= '\r' || r == ' ' || r == '\U{85}' || r == '\U{A0}'
    || r == '\U{1680}' || '\U{2000}' <= r <= '\U{200A}' || r == '\U{2028}' || r == '\U{2029}'
    || r == '\U{202F}' || r == '\U{205F}' || r == '\U{3000}'
  }

  /** The scanner between two runes: the arguments so far, the buffer and the quote flag. */
  datatype Scanner = Scanner(args: seq<string>, buf: string, inQuote: bool) {

    function Feed(r: char): Scanner {
      if r == '`' then this.(inQuote := !inQuote)
      else if IsSpace(r) && !inQuote && buf != [] then Scanner(args + [buf], [], inQuote)
      else this.(buf := buf + [r])
    }

    function FeedAll(val: string): Scanner
      decreases |val|
    {
      if val == [] then this else Feed(val[0]).FeedAll(val[1..])
    }

    function Finish(): seq<string> {
      if buf != [] then args + [buf] else args
    }
  }

  const START := Scanner([], [], false)

  function Tokens(val: string): seq<string> {
    START.FeedAll(val).Finish()
  }

  lemma {:induction false} FeedConcat(s: Scanner, a: string, b: string)
    ensures s.FeedAll(a + b) == s.FeedAll(a).FeedAll(b)
    decreases |a|
  {
    if a == [] {
      assert a + b == b;
    } else {
      assert (a + b)[1..] == a[1..] + b;
      FeedConcat(s.Feed(a[0]), a[1..], b);
    }
  }

  lemma FeedOne(s: Scanner, r: char)
    ensures s.FeedAll([r]) == s.Feed(r)
  {
    assert [r][1..] == [];
  }

  method ExtractArgs(val: string) returns (args: seq<string>)
    ensures args == Tokens(val)
  {
    args := [];
    var inQuote := false;
    var buf: string := [];
    for i := 0 to |val|
      invariant Tokens(val) == Scanner(args, buf, inQuote).FeedAll(val[i..]).Finish()
    {
      var r := val[i];
      assert val[i..][1..] == val[i + 1..];
      if r == '`' {
        inQuote := !inQuote;
      } else if IsSpace(r) {
        if !inQuote && |buf| > 0 {
          args := args + [buf];
          buf := [];
        } else {
          buf := buf + [r];
        }
      } else {
        buf := buf + [r];
      }
    }
    if |buf| > 0 {
      args := args + [buf];
    }
  }

  // ---------- Round trip ----------

  predicate NoQuote(a: string) {
    forall r :: r in a ==> r != '`'
  }

  predicate AllSpace(a: string) {
    forall r :: r in a ==> IsSpace(r)
  }

  predicate NoSpace(a: string) {
    forall r :: r in a ==> !IsSpace(r)
  }

  /** One argument as written: unquoted whitespace before it, then the argument bare or in backticks. */
  datatype Piece = Piece(lead: string, arg: string, quoted: bool)

  /** Any argument may be quoted; a bare one has no whitespace. */
  predicate Writable(p: Piece) {
    && AllSpace(p.lead) && p.arg != [] && NoQuote(p.arg)
    && (p.quoted || NoSpace(p.arg))
  }

  function Written(p: Piece): string {
    p.lead + Body(p)
  }

  function Body(p: Piece): string {
    if p.quoted then ['`'] + p.arg + ['`'] else p.arg
  }

  /** Unquoted whitespace met with an empty buffer is no separator but starts an argument, which the next whitespace
      ends: two by two it leaves arguments of its own... */
  function Spaces(lead: string): seq<string> {
    if |lead| < 2 then [] else [[lead[0]]] + Spaces(lead[2..])
  }

  /** ...and an odd last rune stays in the buffer. */
  function Odd(lead: string): string {
    if |lead| < 2 then lead else Odd(lead[2..])
  }

  /** The arguments that come out of a piece. */
  function Outs(p: Piece): seq<string> {
    Spaces(p.lead) + [Odd(p.lead) + p.arg]
  }

  /** What comes out of the whitespace behind the last argument: its first rune ends that argument. */
  function OutsOfTail(tail: string): seq<string> {
    if tail == [] then [] else Spaces(tail[1..]) + if Odd(tail[1..]) == [] then [] else [Odd(tail[1..])]
  }

  /** Pieces with a separator between any two, and whitespace behind the last. */
  function Line(pieces: seq<Piece>, seps: seq<char>, tail: string): string
    requires |pieces| == |seps| + 1
  {
    if |pieces| == 1 then Written(pieces[0]) + tail
    else Written(pieces[0]) + [seps[0]] + Line(pieces[1..], seps[1..], tail)
  }

  function AllOuts(pieces: seq<Piece>): seq<string> {
    if pieces == [] then [] else Outs(pieces[0]) + AllOuts(pieces[1..])
  }

  /** Runes that join the buffer: all of them but backticks and, unquoted, whitespace behind something. */
  lemma {:induction false} FeedRun(s: Scanner, run: string)
    requires NoQuote(run)
    requires s.inQuote || NoSpace(run) || (s.buf == [] && |run| == 1)
    ensures s.FeedAll(run) == s.(buf := s.buf + run)
    decreases |run|
  {
    if run == [] {
      assert s.buf + run == s.buf;
    } else {
      assert run[0] in run && forall r :: r in run[1..] ==> r in run;
      assert s.Feed(run[0]) == s.(buf := s.buf + [run[0]]);
      assert s.buf + [run[0]] + run[1..] == s.buf + run;
      if |run| > 1 {
        FeedRun(s.(buf := s.buf + [run[0]]), run[1..]);
      }
    }
  }

  lemma FeedBody(s: Scanner, p: Piece)
    requires Writable(p) && !s.inQuote
    ensures s.FeedAll(Body(p)) == s.(buf := s.buf + p.arg)
  {
    if p.quoted {
      var open, filled := s.(inQuote := true), s.(inQuote := true, buf := s.buf + p.arg);
      FeedConcat(s, ['`'] + p.arg, ['`']);
      FeedConcat(s, ['`'], p.arg);
      FeedOne(s, '`');
      FeedRun(open, p.arg);
      FeedOne(filled, '`');
    } else {
      FeedRun(s, p.arg);
    }
  }

  lemma FeedTwoSpaces(s: Scanner, lead: string)
    requires |lead| == 2 && AllSpace(lead) && !s.inQuote && s.buf == []
    ensures s.FeedAll(lead) == Scanner(s.args + [[lead[0]]], [], false)
  {
    assert lead[0] in lead && lead[1] in lead;
    FeedConcat(s, lead[..1], lead[1..]);
    assert lead == lead[..1] + lead[1..] && lead[..1] == [lead[0]] && lead[1..] == [lead[1]];
    FeedOne(s, lead[0]);
    assert [] + [lead[0]] == [lead[0]];
    FeedOne(s.(buf := [lead[0]]), lead[1]);
  }

  lemma {:induction false} FeedLead(s: Scanner, lead: string)
    requires AllSpace(lead) && !s.inQuote && s.buf == []
    ensures s.FeedAll(lead) == Scanner(s.args + Spaces(lead), Odd(lead), false)
    decreases |lead|
  {
    if |lead| < 2 {
      LeadIsQuoteFree(lead);
      FeedRun(s, lead);
    } else {
      var next := Scanner(s.args + [[lead[0]]], [], false);
      assert lead == lead[..2] + lead[2..];
      FeedConcat(s, lead[..2], lead[2..]);
      FeedTwoSpaces(s, lead[..2]);
      FeedLead(next, lead[2..]);
      assert next.args + Spaces(lead[2..]) == s.args + Spaces(lead);
    }
  }

  lemma LeadIsQuoteFree(lead: string)
    requires AllSpace(lead)
    ensures NoQuote(lead)
  {}

  lemma FeedPiece(s: Scanner, p: Piece)
    requires Writable(p) && !s.inQuote && s.buf == []
    ensures s.FeedAll(Written(p)) == Scanner(s.args + Spaces(p.lead), Odd(p.lead) + p.arg, false)
  {
    FeedConcat(s, p.lead, Body(p));
    FeedLead(s, p.lead);
    FeedBody(Scanner(s.args + Spaces(p.lead), Odd(p.lead), false), p);
  }

  /** An argument, its separator and the rest of the line. */
  lemma FeedSeparated(s: Scanner, p: Piece, sep: char, rest: string)
    requires Writable(p) && IsSpace(sep) && !s.inQuote && s.buf == []
    ensures s.FeedAll(Written(p) + [sep] + rest) == Scanner(s.args + Outs(p), [], false).FeedAll(rest)
  {
    FeedConcat(s, Written(p) + [sep], rest);
    FeedConcat(s, Written(p), [sep]);
    FeedPiece(s, p);
    FeedOne(Scanner(s.args + Spaces(p.lead), Odd(p.lead) + p.arg, false), sep);
    assert s.args + Spaces(p.lead) + [Odd(p.lead) + p.arg] == s.args + Outs(p);
  }

  lemma FeedBare(s: Scanner, p: Piece)
    requires Writable(p) && !s.inQuote && s.buf == []
    ensures s.FeedAll(Written(p)).Finish() == s.args + Outs(p)
  {
    FeedPiece(s, p);
    assert s.args + Spaces(p.lead) + [Odd(p.lead) + p.arg] == s.args + Outs(p);
  }

  lemma FeedTail(s: Scanner, tail: string)
    requires tail != [] && AllSpace(tail[1..]) && !s.inQuote && s.buf == []
    ensures s.FeedAll(tail[1..]).Finish() == s.args + OutsOfTail(tail)
  {
    FeedLead(s, tail[1..]);
  }

  /** The last argument and the whitespace behind it. */
  lemma FeedLast(s: Scanner, p: Piece, tail: string)
    requires Writable(p) && AllSpace(tail) && !s.inQuote && s.buf == []
    ensures s.FeedAll(Written(p) + tail).Finish() == s.args + Outs(p) + OutsOfTail(tail)
  {
    hide Outs, Written, Writable;
    if tail == [] {
      FeedBare(s, p);
      assert Written(p) + tail == Written(p) && s.args + Outs(p) + [] == s.args + Outs(p);
    } else {
      assert tail[0] in tail;
      assert Written(p) + tail == Written(p) + [tail[0]] + tail[1..];
      FeedSeparated(s, p, tail[0], tail[1..]);
      FeedTail(Scanner(s.args + Outs(p), [], false), tail);
    }
  }

  ghost predicate WellFormed(pieces: seq<Piece>, seps: seq<char>, tail: string) {
    && |pieces| == |seps| + 1
    && (forall p :: p in pieces ==> Writable(p))
    && (forall c :: c in seps ==> IsSpace(c)) && AllSpace(tail)
  }

  lemma {:induction false} FeedLine(s: Scanner, pieces: seq<Piece>, seps: seq<char>, tail: string)
    requires WellFormed(pieces, seps, tail) && !s.inQuote && s.buf == []
    ensures s.FeedAll(Line(pieces, seps, tail)).Finish() == s.args + AllOuts(pieces) + OutsOfTail(tail)
    decreases |pieces|
  {
    hide Outs, OutsOfTail, Written;
    var p := pieces[0];
    if |pieces| > 1 {
      var next := Scanner(s.args + Outs(p), [], false);
      FeedSeparated(s, p, seps[0], Line(pieces[1..], seps[1..], tail));
      FeedLine(next, pieces[1..], seps[1..], tail);
      assert next.args + AllOuts(pieces[1..]) == s.args + AllOuts(pieces);
    } else {
      FeedLast(s, p, tail);
      assert AllOuts(pieces) == Outs(p) + AllOuts([]) == Outs(p);
    }
  }

  /** Round trip: arguments written bare or in backticks and separated by whitespace come back. Of a stretch of
      whitespace only the first rune is dropped; the others, two by two, become arguments of their own, and an odd
      last one the first rune of the next argument. */
  lemma TokensOfLine(pieces: seq<Piece>, seps: seq<char>, tail: string)
    requires WellFormed(pieces, seps, tail)
    ensures Tokens(Line(pieces, seps, tail)) == AllOuts(pieces) + OutsOfTail(tail)
  {
    FeedLine(START, pieces, seps, tail);
    assert [] + AllOuts(pieces) == AllOuts(pieces);
  }

  function Args(pieces: seq<Piece>): seq<string> {
    if pieces == [] then [] else [pieces[0].arg] + Args(pieces[1..])
  }

  /** The arguments come back unchanged exactly when every stretch of unquoted whitespace is a single rune between two
      of them, or at most one behind the last. */
  lemma RoundTripExact(pieces: seq<Piece>, seps: seq<char>, tail: string)
    requires WellFormed(pieces, seps, tail)
    ensures Tokens(Line(pieces, seps, tail)) == Args(pieces)
       <==> (forall p :: p in pieces ==> p.lead == []) && |tail| <= 1
  {
    TokensOfLine(pieces, seps, tail);
    OutsAreArgs(pieces);
    EnoughOuts(pieces);
    TailIsNothing(tail);
    if OutsOfTail(tail) == [] {
      assert AllOuts(pieces) + OutsOfTail(tail) == AllOuts(pieces);
    } else {
      assert |AllOuts(pieces) + OutsOfTail(tail)| > |Args(pieces)|;
    }
  }

  /** Without any argument: only the empty line gives back none. */
  lemma BlankLine(tail: string)
    requires AllSpace(tail)
    ensures Tokens(tail) == Spaces(tail) + if Odd(tail) == [] then [] else [Odd(tail)]
    ensures Tokens(tail) == [] <==> tail == []
  {
    FeedLead(START, tail);
    assert [] + Spaces(tail) == Spaces(tail);
  }

  lemma TailIsNothing(tail: string)
    ensures OutsOfTail(tail) == [] <==> |tail| <= 1
  {}

  lemma {:induction false} EnoughOuts(pieces: seq<Piece>)
    ensures |AllOuts(pieces)| >= |Args(pieces)| == |pieces|
  {
    if pieces != [] {
      EnoughOuts(pieces[1..]);
    }
  }

  lemma HeadIsArg(p: Piece, outs: seq<string>, args: seq<string>)
    requires |outs| >= |args|
    ensures Outs(p) + outs == [p.arg] + args <==> p.lead == [] && outs == args
  {
    if |p.lead| >= 2 {
      assert |Outs(p) + outs| > |[p.arg] + args|;
    } else {
      assert Outs(p) == [p.lead + p.arg];
      assert (Outs(p) + outs)[0] == p.lead + p.arg && (Outs(p) + outs)[1..] == outs;
      assert ([p.arg] + args)[0] == p.arg && ([p.arg] + args)[1..] == args;
      assert p.lead + p.arg == p.arg ==> |p.lead| == 0;
      assert p.lead == [] ==> p.lead + p.arg == p.arg;
    }
  }

  lemma {:induction false} OutsAreArgs(pieces: seq<Piece>)
    ensures AllOuts(pieces) == Args(pieces) <==> forall p :: p in pieces ==> p.lead == []
  {
    if pieces != [] {
      OutsAreArgs(pieces[1..]);
      EnoughOuts(pieces[1..]);
      HeadIsArg(pieces[0], AllOuts(pieces[1..]), Args(pieces[1..]));
      assert forall q :: q in pieces <==> q == pieces[0] || q in pieces[1..];
    }
  }

  // ---------- Conservation ----------

  function Keep(r: char): string {
    if r == '`' then [] else [r]
  }

  function Unquoted(val: string): string {
    if val == [] then [] else Keep(val[0]) + Unquoted(val[1..])
  }

  /** The unquoted whitespace runes at which the scanner flushes, in order. */
  function Dropped(s: Scanner, val: string): string
    decreases |val|
  {
    if val == [] then []
    else (if |s.Feed(val[0]).args| > |s.args| then [val[0]] else []) + Dropped(s.Feed(val[0]), val[1..])
  }

  /** Arguments in order, with the i-th dropped rune behind the i-th of them. */
  function Weave(args: seq<string>, dropped: string): string
    decreases |args|
  {
    if args == [] then []
    else args[0] + (if dropped == [] then [] else [dropped[0]])
         + Weave(args[1..], if dropped == [] then [] else dropped[1..])
  }

  lemma WeaveCons(x: string, c: char, args: seq<string>, dropped: string)
    ensures Weave([x] + args, [c] + dropped) == x + [c] + Weave(args, dropped)
  {
    assert ([x] + args)[1..] == args && ([c] + dropped)[1..] == dropped;
  }

  lemma WeaveOne(a: string, tail: string)
    requires |tail| <= 1
    ensures Weave([a], tail) == a + tail && Weave([], []) == []
  {
    assert [a][1..] == [] && (tail != [] ==> [tail[0]] == tail);
  }

  lemma {:induction false} WeaveSnoc(args: seq<string>, dropped: string, a: string, tail: string)
    requires |dropped| == |args| && |tail| <= 1
    ensures Weave(args + [a], dropped + tail) == Weave(args, dropped) + a + tail
  {
    hide Weave;
    if args == [] {
      WeaveOne(a, tail);
      assert [] + [a] == [a] && dropped + tail == tail;
    } else {
      var x, c, rest, more := args[0], dropped[0], args[1..], dropped[1..];
      assert args == [x] + rest && dropped == [c] + more;
      assert args + [a] == [x] + (rest + [a]) && dropped + tail == [c] + (more + tail);
      WeaveCons(x, c, rest, more);
      WeaveCons(x, c, rest + [a], more + tail);
      WeaveSnoc(rest, more, a, tail);
      Regroup4(x + [c], Weave(rest, more), a, tail);
    }
  }

  lemma Regroup4(u: string, v: string, a: string, tail: string)
    ensures u + (v + a + tail) == u + v + a + tail
  {}

  lemma ConservedStep(s: Scanner, before: string, r: char) returns (drop: string)
    requires |before| == |s.args| && forall a :: a in s.args ==> a != []
    ensures var next := s.Feed(r);
      && drop == (if |next.args| > |s.args| then [r] else []) && AllSpace(drop)
      && |before + drop| == |next.args| && (forall a :: a in next.args ==> a != [])
      && Weave(next.args, before + drop) + next.buf == Weave(s.args, before) + (s.buf + Unquoted([r]))
  {
    var next := s.Feed(r);
    assert [r][1..] == [] && Unquoted([r]) == if r == '`' then [] else [r];
    if next.args != s.args {
      drop := [r];
      WeaveSnoc(s.args, before, s.buf, [r]);
      assert Weave(s.args, before) + s.buf + [r] == Weave(s.args, before) + (s.buf + [r]);
    } else {
      drop := [];
      assert before + [] == before;
      assert s.buf + [] == s.buf;
    }
  }

  /** What the scanner has accounted for: flushed arguments with their separators, then the buffer. */
  lemma {:induction false} Conserved(s: Scanner, before: string, val: string) returns (dropped: string)
    requires |before| == |s.args| && AllSpace(before)
    requires forall a :: a in s.args ==> a != []
    ensures dropped == before + Dropped(s, val) && AllSpace(dropped)
    ensures var r := s.FeedAll(val);
      && |dropped| == |r.args| && (forall a :: a in r.args ==> a != [])
      && Weave(r.args, dropped) + r.buf == Weave(s.args, before) + (s.buf + Unquoted(val))
    decreases |val|
  {
    hide Weave;
    if val == [] {
      dropped := before;
      assert before + [] == before;
      assert s.buf + [] == s.buf;
    } else {
      hide Unquoted, Dropped;
      var next := s.Feed(val[0]);
      var drop := ConservedStep(s, before, val[0]);
      dropped := Conserved(next, before + drop, val[1..]);
      DroppedCons(s, val, before, drop);
      UnquotedCons(val);
      Regroup(Weave(next.args, before + drop), next.buf, Weave(s.args, before),
              s.buf, Unquoted([val[0]]), Unquoted(val[1..]));
    }
  }

  lemma DroppedCons(s: Scanner, val: string, before: string, drop: string)
    requires val != [] && drop == if |s.Feed(val[0]).args| > |s.args| then [val[0]] else []
    ensures before + drop + Dropped(s.Feed(val[0]), val[1..]) == before + Dropped(s, val)
  {
    var rest := Dropped(s.Feed(val[0]), val[1..]);
    assert Dropped(s, val) == drop + rest;
    assert before + drop + rest == before + (drop + rest);
  }

  lemma UnquotedCons(val: string)
    requires val != []
    ensures Unquoted(val) == Unquoted([val[0]]) + Unquoted(val[1..])
  {
    hide Keep;
    var c := val[0];
    assert [c][1..] == [] && Unquoted([]) == [] && Keep(c) + [] == Keep(c);
    assert Unquoted([c]) == Keep(c);
  }

  lemma Regroup(w: string, b: string, v: string, c: string, x: string, rest: string)
    requires w + b == v + (c + x)
    ensures w + (b + rest) == v + (c + (x + rest))
  {
    assert w + (b + rest) == (w + b) + rest;
  }

  /** Conservation, for every input: no argument is empty, and the arguments in order, with one dropped
      whitespace rune behind each (but possibly the last), are the input without its backticks. */
  lemma TokensConserve(val: string)
    ensures forall a :: a in Tokens(val) ==> a != []
    ensures var dropped := Dropped(START, val);
      && AllSpace(dropped)
      && |Tokens(val)| - 1 <= |dropped| <= |Tokens(val)|
      && Weave(Tokens(val), dropped) == Unquoted(val)
  {
    var dropped := Conserved(START, [], val);
    var r := START.FeedAll(val);
    assert dropped == Dropped(START, val);
    assert Weave([], []) + [] + Unquoted(val) == Unquoted(val);
    if r.buf != [] {
      WeaveSnoc(r.args, dropped, r.buf, []);
      assert dropped + [] == dropped;
      assert Weave(r.args, dropped) + r.buf + [] == Weave(r.args, dropped) + r.buf;
    } else {
      assert Weave(r.args, dropped) + r.buf == Weave(r.args, dropped);
    }
  }
}
