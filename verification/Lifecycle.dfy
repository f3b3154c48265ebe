/** The life of a rule across set, commit, start, stop, drop and restart, with every storage call allowed to fail. */
module Lifecycle {

  /** A document of the rule collection. */
  datatype Persist = Persist(value: string, isopen: bool)

  /** Offsets by file name: the documents of one collection of the position library. */
  type Documents = map<string, nat>

  /** The server and its storage. Cache and workers are lost when the process ends; rules and library are not. */
  datatype State = State(
    up: bool,
    cache: map<string, string>,
    workers: set<string>,
    rules: map<string, Persist>,
    library: map<string, Documents>)

  /** A command that has passed its argument checks, with the outcome of everything outside the server: `valid` is
      whether the rule unmarshals, `get`, `put`, `clear`, `del`, `keys` whether a storage call succeeds, `run` whether
      a worker comes up, `failing` which workers do not come up at a restart, `docs` what a directory saves when it
      comes up or goes down, `last` what one that came up saves if it is taken down at once. */
  datatype Command =
    | Set(rule: string, value: string, valid: bool)
    | Commit(rule: string, put: bool)
    | Start(rule: string, get: bool, run: bool, docs: Documents, put: bool, last: Documents)
    | Stop(rule: string, get: bool, docs: Documents, put: bool)
    | Drop(rule: string, clear: bool, del: bool)
    | Restart(keys: bool, failing: set<string>, saved: map<string, Documents>)

  datatype Reply = OkReply | StringReply | ErrReply

  datatype Outcome = Outcome(state: State, reply: Reply)

  function Save(library: map<string, Documents>, rule: string, docs: Documents): map<string, Documents> {
    library[rule := (if rule in library then library[rule] else map[]) + docs]
  }

  /** NewServer: every stored rule enters the cache, and those marked open are started. */
  function Opening(rules: map<string, Persist>, failing: set<string>): set<string> {
    set r | r in rules && rules[r].isopen && r !in failing
  }

  function Values(rules: map<string, Persist>): map<string, string> {
    map r | r in rules :: rules[r].value
  }

  function At(saved: map<string, Documents>, rule: string): Documents {
    if rule in saved then saved[rule] else map[]
  }

  function Saved(library: map<string, Documents>, started: set<string>, saved: map<string, Documents>)
    : map<string, Documents>
  {
    map r | r in library.Keys + started ::
      (if r in library then library[r] else map[]) + (if r in started then At(saved, r) else map[])
  }

  function ExecSet(s: State, c: Command): Outcome
    requires c.Set?
  {
    if !c.valid then Outcome(s, ErrReply)
    else Outcome(s.(cache := s.cache[c.rule := c.value]), OkReply)
  }

  /** The document is replaced as a whole, so a commit always closes the rule. */
  function ExecCommit(s: State, c: Command): Outcome
    requires c.Commit?
  {
    if c.rule !in s.cache || !c.put then Outcome(s, ErrReply)
    else Outcome(s.(rules := s.rules[c.rule := Persist(s.cache[c.rule], false)]), OkReply)
  }

  /** If the open mark cannot be stored, the worker is taken down again. */
  function ExecStart(s: State, c: Command): Outcome
    requires c.Start?
  {
    if c.rule !in s.cache || !c.get || c.rule !in s.rules then Outcome(s, ErrReply)
    else if c.rule in s.workers then Outcome(s, StringReply)
    else if !c.run then Outcome(s, ErrReply)
    else
      var t := s.(library := Save(s.library, c.rule, c.docs));
      if !c.put then Outcome(t.(library := Save(t.library, c.rule, c.last)), ErrReply)
      else Outcome(t.(workers := s.workers + {c.rule},
                      rules := s.rules[c.rule := s.rules[c.rule].(isopen := true)]), StringReply)
  }

  /** If the closed mark cannot be stored, the worker stays down all the same. */
  function ExecStop(s: State, c: Command): Outcome
    requires c.Stop?
  {
    if c.rule !in s.cache || !c.get || c.rule !in s.rules then Outcome(s, ErrReply)
    else if c.rule !in s.workers then Outcome(s, StringReply)
    else
      var t := s.(workers := s.workers - {c.rule}, library := Save(s.library, c.rule, c.docs));
      if !c.put then Outcome(t, ErrReply)
      else Outcome(t.(rules := s.rules[c.rule := s.rules[c.rule].(isopen := false)]), StringReply)
  }

  /** The cache is cleared first and restored if the library cannot be; a failure to delete the document is not. */
  function ExecDrop(s: State, c: Command): Outcome
    requires c.Drop?
  {
    if c.rule in s.workers || c.rule !in s.cache || !c.clear then Outcome(s, ErrReply)
    else
      var t := s.(cache := s.cache - {c.rule}, library := s.library - {c.rule});
      if !c.del || c.rule !in s.rules then Outcome(t, ErrReply)
      else Outcome(t.(rules := s.rules - {c.rule}), OkReply)
  }

  function ExecRestart(s: State, c: Command): Outcome
    requires c.Restart?
  {
    if !c.keys then Outcome(s.(up := false, cache := map[], workers := {}), ErrReply)
    else
      var started := Opening(s.rules, c.failing);
      Outcome(State(true, Values(s.rules), started, s.rules, Saved(s.library, started, c.saved)), OkReply)
  }

  /** A server that could not be created takes no command but a restart. */
  function Exec(s: State, c: Command): Outcome {
    if c.Restart? then ExecRestart(s, c)
    else if !s.up then Outcome(s, ErrReply)
    else match c
      case Set(_, _, _) => ExecSet(s, c)
      case Commit(_, _) => ExecCommit(s, c)
      case Start(_, _, _, _, _, _) => ExecStart(s, c)
      case Stop(_, _, _, _) => ExecStop(s, c)
      case Drop(_, _, _) => ExecDrop(s, c)
  }

  function Run(s: State, cs: seq<Command>): State
    decreases |cs|
  {
    if cs == [] then s else Run(Exec(s, cs[0]).state, cs[1..])
  }

  /** Storage as it is found, before any server. */
  function Initial(rules: map<string, Persist>, library: map<string, Documents>): State {
    State(false, map[], {}, rules, library)
  }

  // ---------- Containment, under any faults ----------

  predicate Contained(s: State) {
    s.workers <= s.cache.Keys * s.rules.Keys
  }

  lemma ContainedStep(s: State, c: Command)
    requires Contained(s)
    ensures Contained(Exec(s, c).state)
  {}

  /** In every run, whatever storage calls fail, each running worker's rule is in the cache and in storage. */
  lemma {:induction false} ContainedOverRuns(s: State, cs: seq<Command>)
    requires Contained(s)
    ensures Contained(Run(s, cs))
    decreases |cs|
  {
    if cs != [] {
      ContainedStep(s, cs[0]);
      ContainedOverRuns(Exec(s, cs[0]).state, cs[1..]);
    }
  }

  /** Starting, stopping and restarting never change the value of a stored rule, nor which rules are stored. */
  lemma ValuesKept(s: State, c: Command)
    requires c.Start? || c.Stop? || c.Restart?
    ensures Values(Exec(s, c).state.rules) == Values(s.rules)
  {
    var t := Exec(s, c).state;
    assert t.rules.Keys == s.rules.Keys;
  }

  // ---------- Restart recovery, without faults ----------

  /** Every call outside the server succeeds. */
  predicate FaultFree(c: Command) {
    match c
    case Set(_, _, _) => true
    case Commit(_, put) => put
    case Start(_, get, run, _, put, _) => get && run && put
    case Stop(_, get, _, put) => get && put
    case Drop(_, clear, del) => clear && del
    case Restart(keys, failing, _) => keys && failing == {}
  }

  predicate AllFaultFree(cs: seq<Command>) {
    forall c :: c in cs ==> FaultFree(c)
  }

  /** The running rules that a commit has closed since they were last started, after one command... */
  function Dirty(s: State, c: Command, dirty: set<string>): set<string> {
    if c.Commit? && s.up && c.rule in s.cache && c.put && c.rule in s.workers then dirty + {c.rule}
    else if c.Stop? then dirty - {c.rule}
    else if c.Restart? then {}
    else dirty
  }

  /** ...and after a run. */
  function Recommitted(s: State, cs: seq<Command>, dirty: set<string>): set<string>
    decreases |cs|
  {
    if cs == [] then dirty else Recommitted(Exec(s, cs[0]).state, cs[1..], Dirty(s, cs[0], dirty))
  }

  /** What is marked open is exactly what runs and has not been committed since its start. */
  predicate Marked(s: State, dirty: set<string>) {
    && s.up && Contained(s) && dirty <= s.workers
    && forall r :: r in s.rules ==> (s.rules[r].isopen <==> r in s.workers && r !in dirty)
  }

  lemma MarkedStep(s: State, c: Command, dirty: set<string>)
    requires Marked(s, dirty) && FaultFree(c)
    ensures Marked(Exec(s, c).state, Dirty(s, c, dirty))
  {}

  lemma {:induction false} MarkedOverRuns(s: State, cs: seq<Command>, dirty: set<string>)
    requires Marked(s, dirty) && AllFaultFree(cs)
    ensures Marked(Run(s, cs), Recommitted(s, cs, dirty))
    decreases |cs|
  {
    if cs != [] {
      assert cs[0] in cs;
      MarkedStep(s, cs[0], dirty);
      MarkedOverRuns(Exec(s, cs[0]).state, cs[1..], Dirty(s, cs[0], dirty));
    }
  }

  lemma MarkedAtStart(s: State, saved: map<string, Documents>)
    ensures Marked(Exec(s, Restart(true, {}, saved)).state, {})
  {}

  /** Restart recovery, over every run of a server without faults: open implies running, so a restart never starts a
      rule that was not running; and it brings back exactly the running rules that were not committed since their
      start, hence all of them if and only if there is no such rule. */
  lemma RestartRecovers(s: State, first: map<string, Documents>, cs: seq<Command>, saved: map<string, Documents>)
    requires AllFaultFree(cs)
    ensures var s0 := Exec(s, Restart(true, {}, first)).state;
      var t, lost := Run(s0, cs), Recommitted(s0, cs, {});
      var u := Exec(t, Restart(true, {}, saved)).state;
      && (forall r :: r in t.rules && t.rules[r].isopen ==> r in t.workers)
      && lost <= t.workers && u.workers == t.workers - lost
      && (u.workers == t.workers <==> lost == {})
  {
    var s0 := Exec(s, Restart(true, {}, first)).state;
    MarkedAtStart(s, first);
    MarkedOverRuns(s0, cs, {});
    var t, lost := Run(s0, cs), Recommitted(s0, cs, {});
    Reopened(t, lost);
  }

  lemma Reopened(t: State, lost: set<string>)
    requires Marked(t, lost)
    ensures Opening(t.rules, {}) == t.workers - lost
    ensures t.workers - lost == t.workers <==> lost == {}
  {
    if lost != {} {
      var r :| r in lost;
      assert r in t.workers && r !in t.workers - lost;
    }
  }

  /** The exception happens: a running rule that is committed again does not come back. */
  lemma CommitWhileRunningIsLost(s: State, rule: string)
    requires Marked(s, {}) && rule in s.workers
    ensures var t := Exec(s, Commit(rule, true)).state;
      rule in t.workers && rule !in Exec(t, Restart(true, {}, map[])).state.workers
  {}

  // ---------- Start and stop ----------

  /** Start: any error leaves cache, workers and rules as they were, the worker that could not be marked included;
      otherwise the rule runs, and is marked open if it was not running before. */
  lemma StartOutcome(s: State, c: Command)
    requires s.up && c.Start?
    ensures var t, reply := Exec(s, c).state, Exec(s, c).reply;
      && (reply == ErrReply ==> t == s.(library := t.library))
      && (reply != ErrReply ==> c.rule in t.workers && t.workers <= s.workers + {c.rule} && t.cache == s.cache)
      && (reply != ErrReply && c.rule !in s.workers ==> c.rule in t.rules && t.rules[c.rule].isopen)
      && (c.rule in s.workers ==> t == s)
  {}

  /** Stop: whatever fails behind the first check, the rule is down; it stays marked open exactly if the mark could
      not be stored, so that a restart would start it again. */
  lemma StopOutcome(s: State, c: Command)
    requires s.up && c.Stop? && c.rule in s.cache && c.get && c.rule in s.rules
    ensures var t, reply := Exec(s, c).state, Exec(s, c).reply;
      && t.workers == s.workers - {c.rule} && t.cache == s.cache
      && (reply == ErrReply <==> c.rule in s.workers && !c.put)
      && (c.rule in s.workers ==>
           (c.rule in Opening(t.rules, {}) <==> !c.put && c.rule in Opening(s.rules, {})))
  {}

  // ---------- Rules do not interfere ----------

  predicate Concerns(c: Command, rule: string) {
    c.Restart? || c.rule == rule
  }

  /** The commands of a run that name a rule, and the restarts. */
  function About(cs: seq<Command>, rule: string): seq<Command> {
    if cs == [] then [] else (if Concerns(cs[0], rule) then [cs[0]] else []) + About(cs[1..], rule)
  }

  predicate SameDocuments(s: State, t: State, rule: string) {
    (rule in s.library <==> rule in t.library) && (rule in s.library ==> s.library[rule] == t.library[rule])
  }

  /** Two states in which nothing about a rule differs, its documents in the library aside. */
  predicate SameServer(s: State, t: State, rule: string) {
    && s.up == t.up && (rule in s.workers <==> rule in t.workers)
    && (rule in s.cache <==> rule in t.cache) && (rule in s.cache ==> s.cache[rule] == t.cache[rule])
    && (rule in s.rules <==> rule in t.rules) && (rule in s.rules ==> s.rules[rule] == t.rules[rule])
  }

  predicate SameFor(s: State, t: State, rule: string) {
    SameServer(s, t, rule) && SameDocuments(s, t, rule)
  }

  lemma SameAfter(s: State, t: State, c: Command, rule: string)
    requires SameFor(s, t, rule) && Concerns(c, rule)
    ensures SameFor(Exec(s, c).state, Exec(t, c).state, rule) && Exec(s, c).reply == Exec(t, c).reply
  {
    SameServerAfter(s, t, c, rule);
    SameDocumentsAfter(s, t, c, rule);
  }

  lemma SameServerAfter(s: State, t: State, c: Command, rule: string)
    requires SameServer(s, t, rule) && Concerns(c, rule)
    ensures SameServer(Exec(s, c).state, Exec(t, c).state, rule) && Exec(s, c).reply == Exec(t, c).reply
  {
    hide ExecSet, ExecCommit, ExecStart, ExecStop, ExecDrop, ExecRestart;
    match c {
      case Set(_, _, _) => SameSet(s, t, c, rule);
      case Commit(_, _) => SameCommit(s, t, c, rule);
      case Start(_, _, _, _, _, _) => SameStart(s, t, c, rule);
      case Stop(_, _, _, _) => SameStop(s, t, c, rule);
      case Drop(_, _, _) => SameDrop(s, t, c, rule);
      case Restart(_, _, _) => SameRestart(s, t, c, rule);
    }
  }

  lemma SameSet(s: State, t: State, c: Command, rule: string)
    requires SameServer(s, t, rule) && c.Set? && c.rule == rule
    ensures SameServer(ExecSet(s, c).state, ExecSet(t, c).state, rule) && ExecSet(s, c).reply == ExecSet(t, c).reply
  {}

  lemma SameCommit(s: State, t: State, c: Command, rule: string)
    requires SameServer(s, t, rule) && c.Commit? && c.rule == rule
    ensures SameServer(ExecCommit(s, c).state, ExecCommit(t, c).state, rule)
    ensures ExecCommit(s, c).reply == ExecCommit(t, c).reply
  {}

  lemma SameStart(s: State, t: State, c: Command, rule: string)
    requires SameServer(s, t, rule) && c.Start? && c.rule == rule
    ensures SameServer(ExecStart(s, c).state, ExecStart(t, c).state, rule)
    ensures ExecStart(s, c).reply == ExecStart(t, c).reply
  {}

  lemma SameStop(s: State, t: State, c: Command, rule: string)
    requires SameServer(s, t, rule) && c.Stop? && c.rule == rule
    ensures SameServer(ExecStop(s, c).state, ExecStop(t, c).state, rule) && ExecStop(s, c).reply == ExecStop(t, c).reply
  {}

  lemma SameDrop(s: State, t: State, c: Command, rule: string)
    requires SameServer(s, t, rule) && c.Drop? && c.rule == rule
    ensures SameServer(ExecDrop(s, c).state, ExecDrop(t, c).state, rule) && ExecDrop(s, c).reply == ExecDrop(t, c).reply
  {}

  lemma SameRestart(s: State, t: State, c: Command, rule: string)
    requires SameServer(s, t, rule) && c.Restart?
    ensures SameServer(ExecRestart(s, c).state, ExecRestart(t, c).state, rule)
    ensures ExecRestart(s, c).reply == ExecRestart(t, c).reply
  {
    hide Saved;
  }

  lemma SameDocumentsAfter(s: State, t: State, c: Command, rule: string)
    requires SameServer(s, t, rule) && SameDocuments(s, t, rule) && Concerns(c, rule)
    ensures SameDocuments(Exec(s, c).state, Exec(t, c).state, rule)
  {
    if c.Restart? {
      hide Saved, Opening;
      OpeningAt(s, t, c.failing, rule);
      SameSaved(s.library, t.library, Opening(s.rules, c.failing), Opening(t.rules, c.failing), c.saved, rule);
    } else if c.Start? {
      hide ExecStart;
      SameStarted(s, t, c, rule);
    } else if c.Stop? {
      hide ExecStop;
      SameStopped(s, t, c, rule);
    }
  }

  lemma OpeningAt(s: State, t: State, failing: set<string>, rule: string)
    requires SameServer(s, t, rule)
    ensures rule in Opening(s.rules, failing) <==> rule in Opening(t.rules, failing)
  {}

  lemma SameStopped(s: State, t: State, c: Command, rule: string)
    requires SameServer(s, t, rule) && SameDocuments(s, t, rule) && c.Stop? && c.rule == rule
    ensures SameDocuments(ExecStop(s, c).state, ExecStop(t, c).state, rule)
  {}

  lemma SameSaved(l: map<string, Documents>, m: map<string, Documents>, a: set<string>, b: set<string>,
                  saved: map<string, Documents>, rule: string)
    requires (rule in a <==> rule in b) && (rule in l <==> rule in m) && (rule in l ==> l[rule] == m[rule])
    ensures (rule in Saved(l, a, saved) <==> rule in Saved(m, b, saved))
    ensures rule in Saved(l, a, saved) ==> Saved(l, a, saved)[rule] == Saved(m, b, saved)[rule]
  {}

  lemma SameStarted(s: State, t: State, c: Command, rule: string)
    requires SameServer(s, t, rule) && SameDocuments(s, t, rule) && c.Start? && c.rule == rule
    ensures SameDocuments(ExecStart(s, c).state, ExecStart(t, c).state, rule)
  {
    assert Save(s.library, rule, c.docs)[rule] == Save(t.library, rule, c.docs)[rule];
  }

  lemma SameBeside(s: State, c: Command, rule: string)
    requires !Concerns(c, rule)
    ensures SameFor(Exec(s, c).state, s, rule)
  {}

  /** Over every run, with any faults: what becomes of a rule, in cache, workers, storage and library, is what becomes
      of it if all commands on other rules are left out. */
  lemma {:induction false} RulesAreIndependent(s: State, t: State, cs: seq<Command>, rule: string)
    requires SameFor(s, t, rule)
    ensures SameFor(Run(s, cs), Run(t, About(cs, rule)), rule)
    decreases |cs|
  {
    if cs != [] {
      var next := Exec(s, cs[0]).state;
      if Concerns(cs[0], rule) {
        SameAfter(s, t, cs[0], rule);
        RunCons(t, cs[0], About(cs[1..], rule));
        RulesAreIndependent(next, Exec(t, cs[0]).state, cs[1..], rule);
      } else {
        SameBeside(s, cs[0], rule);
        assert [] + About(cs[1..], rule) == About(cs[1..], rule);
        RulesAreIndependent(next, t, cs[1..], rule);
      }
    }
  }

  // ---------- Drop over whole runs ----------

  predicate Absent(s: State, rule: string) {
    rule !in s.cache && rule !in s.workers && rule !in s.rules && rule !in s.library
  }

  /** Drop, case by case: it answers OK exactly if the rule was stored and every call succeeded, and then nothing of
      it is left; a drop refused or failing at the library leaves the state as it was; a drop failing at the document
      has cleared cache and library, and cannot bring them back. */
  lemma DropOutcome(s: State, rule: string, clear: bool, del: bool)
    requires s.up && Contained(s)
    ensures var t, reply := Exec(s, Drop(rule, clear, del)).state, Exec(s, Drop(rule, clear, del)).reply;
      && (reply == OkReply <==> rule !in s.workers && rule in s.cache && rule in s.rules && clear && del)
      && (reply == OkReply ==> Absent(t, rule) && t.rules == s.rules - {rule} && t.workers == s.workers)
      && (!clear || rule in s.workers || rule !in s.cache ==> t == s)
      && reply != StringReply && (reply == ErrReply ==> t.rules == s.rules && t.workers == s.workers)
      && (clear && rule !in s.workers && rule in s.cache ==>
            t.cache == s.cache - {rule} && t.library == s.library - {rule})
      && Contained(t)
  {}

  /** Neither in storage nor running, or stored but closed. */
  predicate Shut(s: State, rule: string) {
    rule !in s.workers && (rule in s.rules ==> !s.rules[rule].isopen)
  }

  predicate IsStart(c: Command, rule: string) {
    c.Start? && c.rule == rule && c.get && c.run && c.put
  }

  predicate IsCommit(c: Command, rule: string) {
    c.Commit? && c.rule == rule && c.put
  }

  predicate IsSet(c: Command, rule: string) {
    c.Set? && c.rule == rule && c.valid
  }

  lemma ShutStep(s: State, c: Command, rule: string)
    requires Shut(s, rule)
    ensures Shut(Exec(s, c).state, rule) || IsStart(c, rule)
  {}

  lemma {:induction false} StartedLater(s: State, cs: seq<Command>, rule: string) returns (k: nat)
    requires Shut(s, rule) && rule in Run(s, cs).workers
    ensures k < |cs| && IsStart(cs[k], rule)
    decreases |cs|
  {
    ShutStep(s, cs[0], rule);
    if IsStart(cs[0], rule) {
      k := 0;
    } else {
      k := StartedLater(Exec(s, cs[0]).state, cs[1..], rule);
      k := k + 1;
    }
  }

  lemma UnstoredStep(s: State, c: Command, rule: string)
    requires rule !in s.rules && rule !in s.workers
    ensures Shut(Exec(s, c).state, rule)
    ensures rule in Exec(s, c).state.rules ==> IsCommit(c, rule)
    ensures rule !in s.cache ==>
      rule !in Exec(s, c).state.rules && (rule in Exec(s, c).state.cache ==> IsSet(c, rule))
  {}

  lemma {:induction false} CommittedLater(s: State, cs: seq<Command>, rule: string) returns (j: nat, k: nat)
    requires rule !in s.rules && rule !in s.workers && rule in Run(s, cs).workers
    ensures j < k < |cs| && IsCommit(cs[j], rule) && IsStart(cs[k], rule)
    decreases |cs|
  {
    var t := Exec(s, cs[0]).state;
    UnstoredStep(s, cs[0], rule);
    if rule in t.rules {
      k := StartedLater(t, cs[1..], rule);
      j, k := 0, k + 1;
    } else {
      j, k := CommittedLater(t, cs[1..], rule);
      j, k := j + 1, k + 1;
    }
  }

  /** After an OK drop, over every run and any faults and restarts in it: for the rule to run again there must have
      been a set of it, later a commit of it, and later a start of it. */
  lemma {:induction false} DroppedStaysDown(s: State, cs: seq<Command>, rule: string)
    returns (i: nat, j: nat, k: nat)
    requires Absent(s.(library := map[]), rule) && rule in Run(s, cs).workers
    ensures i < j < k < |cs| && IsSet(cs[i], rule) && IsCommit(cs[j], rule) && IsStart(cs[k], rule)
    decreases |cs|
  {
    var t := Exec(s, cs[0]).state;
    UnstoredStep(s, cs[0], rule);
    if rule in t.cache {
      j, k := CommittedLater(t, cs[1..], rule);
      i, j, k := 0, j + 1, k + 1;
    } else {
      i, j, k := DroppedStaysDown(t, cs[1..], rule);
      i, j, k := i + 1, j + 1, k + 1;
    }
  }

  /** Drop over whole runs: wherever in a run a drop answers OK, with any faults before and after it, nothing of the
      rule is left then, and if it runs at the end, a set, a commit and a start of it came after, in this order. */
  lemma DropIsFinal(rules: map<string, Persist>, library: map<string, Documents>,
                    before: seq<Command>, drop: Command, after: seq<Command>)
    requires drop.Drop? && Exec(Run(Initial(rules, library), before), drop).reply == OkReply
    ensures var t := Exec(Run(Initial(rules, library), before), drop).state;
      && Absent(t, drop.rule)
      && (drop.rule in Run(t, after).workers ==> RebuiltIn(after, drop.rule))
  {
    var s := Run(Initial(rules, library), before);
    ContainedOverRuns(Initial(rules, library), before);
    var t := Exec(s, drop).state;
    assert Absent(t, drop.rule);
    if drop.rule in Run(t, after).workers {
      var i, j, k := DroppedStaysDown(t, after, drop.rule);
    }
  }

  ghost predicate RebuiltIn(cs: seq<Command>, rule: string) {
    exists i, j, k :: 0 <= i < j < k < |cs| && IsSet(cs[i], rule) && IsCommit(cs[j], rule) && IsStart(cs[k], rule)
  }

  /** Without faults in between, what a set, a commit and a start build, a stop and a drop undo. */
  lemma FullCycle(s: State, rule: string, value: string, up: Documents, down: Documents)
    requires s.up && Contained(s) && Absent(s, rule)
    ensures Run(s, [Set(rule, value, true), Commit(rule, true), Start(rule, true, true, up, true, map[]),
                    Stop(rule, true, down, true), Drop(rule, true, true)]) == s
  {
    Built(s, rule, value, up);
    Undone(s, rule, value, up, down);
    RunFive(s, Set(rule, value, true), Commit(rule, true), Start(rule, true, true, up, true, map[]),
            Stop(rule, true, down, true), Drop(rule, true, true));
  }

  /** A rule set, committed and started: in the cache, in storage, marked open, running, with its documents. */
  function With(s: State, rule: string, value: string, docs: Documents): State {
    s.(cache := s.cache[rule := value], rules := s.rules[rule := Persist(value, true)],
       workers := s.workers + {rule}, library := s.library[rule := docs])
  }

  lemma Built(s: State, rule: string, value: string, up: Documents)
    requires s.up && Absent(s, rule)
    ensures Exec(Exec(Exec(s, Set(rule, value, true)).state, Commit(rule, true)).state,
                 Start(rule, true, true, up, true, map[])).state == With(s, rule, value, up)
  {
    assert map[] + up == up;
    assert s.rules[rule := Persist(value, false)][rule := Persist(value, true)]
        == s.rules[rule := Persist(value, true)];
  }

  lemma Undone(s: State, rule: string, value: string, up: Documents, down: Documents)
    requires s.up && Absent(s, rule)
    ensures Exec(Exec(With(s, rule, value, up), Stop(rule, true, down, true)).state, Drop(rule, true, true)).state == s
  {
    var t := Exec(With(s, rule, value, up), Stop(rule, true, down, true)).state;
    var u := Exec(t, Drop(rule, true, true)).state;
    assert u.cache == s.cache;
    assert u.rules == s.rules;
    assert u.library == s.library;
    assert u.workers == s.workers;
  }

  lemma RunCons(s: State, c: Command, cs: seq<Command>)
    ensures Run(s, [c] + cs) == Run(Exec(s, c).state, cs)
  {
    assert ([c] + cs)[1..] == cs;
  }

  lemma RunFive(s: State, a: Command, b: Command, c: Command, d: Command, e: Command)
    ensures Run(s, [a, b, c, d, e])
         == Exec(Exec(Exec(Exec(Exec(s, a).state, b).state, c).state, d).state, e).state
  {
    var s1 := Exec(s, a).state;
    var s2 := Exec(s1, b).state;
    var s3 := Exec(s2, c).state;
    RunCons(s, a, [b, c, d, e]);
    RunCons(s1, b, [c, d, e]);
    RunCons(s2, c, [d, e]);
    RunCons(s3, d, [e]);
    RunCons(Exec(s3, d).state, e, []);
    assert [a] + [b, c, d, e] == [a, b, c, d, e] && [b] + [c, d, e] == [b, c, d, e];
    assert [c] + [d, e] == [c, d, e] && [d] + [e] == [d, e] && [e] + [] == [e];
  }
}
