/** What a rule's value, mark and positions are after a command, and over runs: stated on the contents of cache,
    storage and library. */
module RuleLaws {
  import opened Lifecycle

  // ---------- The cached value is the one set last ----------

  predicate Touches(c: Command, rule: string) {
    c.Restart? || IsSet(c, rule)
  }

  /** Nothing in the run gives the rule another value in the cache: no valid set of it, and no restart. */
  predicate Quiet(cs: seq<Command>, rule: string) {
    forall c :: c in cs ==> !Touches(c, rule)
  }

  predicate NeverDropped(cs: seq<Command>, rule: string) {
    forall c :: c in cs ==> !(c.Drop? && c.rule == rule)
  }

  lemma QuietStep(s: State, c: Command, rule: string)
    requires !Touches(c, rule)
    ensures rule in Exec(s, c).state.cache ==> rule in s.cache && Exec(s, c).state.cache[rule] == s.cache[rule]
    ensures rule in s.cache && !(c.Drop? && c.rule == rule) ==> rule in Exec(s, c).state.cache
    ensures Exec(s, c).state.up == s.up
  {}

  lemma {:induction false} QuietRun(s: State, cs: seq<Command>, rule: string)
    requires Quiet(cs, rule)
    ensures rule in Run(s, cs).cache ==> rule in s.cache && Run(s, cs).cache[rule] == s.cache[rule]
    ensures rule in s.cache && NeverDropped(cs, rule) ==> rule in Run(s, cs).cache
    ensures Run(s, cs).up == s.up
    decreases |cs|
  {
    if cs != [] {
      assert cs[0] in cs && forall c :: c in cs[1..] ==> c in cs;
      QuietStep(s, cs[0], rule);
      QuietRun(Exec(s, cs[0]).state, cs[1..], rule);
    }
  }

  /** Set: OK exactly if the rule unmarshals; then its value, new or old rule, is the one given, and nothing else
      changes. */
  lemma SetOutcome(s: State, rule: string, value: string, valid: bool)
    requires s.up
    ensures var t, reply := Exec(s, Set(rule, value, valid)).state, Exec(s, Set(rule, value, valid)).reply;
      && reply == (if valid then OkReply else ErrReply)
      && (!valid ==> t == s)
      && (valid ==> rule in t.cache && t.cache[rule] == value && t == s.(cache := t.cache))
      && forall r :: r != rule ==> (r in t.cache <==> r in s.cache) && (r in s.cache ==> t.cache[r] == s.cache[r])
  {}

  /** Over every run: as long as no set of the rule and no restart comes after, the cache has the value of the last
      set of it, whatever it had before; and it has it unless the rule is dropped. */
  lemma LastSetWins(s: State, rule: string, value: string, after: seq<Command>)
    requires s.up && Quiet(after, rule)
    ensures var t := Run(Exec(s, Set(rule, value, true)).state, after);
      && (rule in t.cache ==> t.cache[rule] == value)
      && (NeverDropped(after, rule) ==> rule in t.cache)
  {
    QuietRun(Exec(s, Set(rule, value, true)).state, after, rule);
  }

  /** Commit: OK exactly if the rule is cached and the write succeeds; then its document has the cached value and is
      closed, also in place of an older document; nothing else changes. */
  lemma CommitOutcome(s: State, rule: string, put: bool)
    requires s.up
    ensures var t, reply := Exec(s, Commit(rule, put)).state, Exec(s, Commit(rule, put)).reply;
      && reply == (if rule in s.cache && put then OkReply else ErrReply)
      && (reply == ErrReply ==> t == s)
      && (reply == OkReply ==>
            t == s.(rules := t.rules) && rule in t.rules && t.rules[rule] == Persist(s.cache[rule], false))
      && forall r :: r != rule ==> (r in t.rules <==> r in s.rules) && (r in s.rules ==> t.rules[r] == s.rules[r])
  {}

  /** Set and, any run later that does not set or restart, an OK commit: the value set is the value stored. */
  lemma CommitStoresLastSet(s: State, rule: string, value: string, between: seq<Command>, put: bool)
    requires s.up && Quiet(between, rule)
    ensures var t := Run(Exec(s, Set(rule, value, true)).state, between);
      var r := Exec(t, Commit(rule, put));
      && (r.reply == OkReply ==> rule in r.state.rules && r.state.rules[rule].value == value)
      && (NeverDropped(between, rule) && put ==> r.reply == OkReply)
  {
    LastSetWins(s, rule, value, between);
    QuietRun(Exec(s, Set(rule, value, true)).state, between, rule);
  }

  // ---------- Restart ----------

  /** A server that could not be created refuses everything but a restart. */
  lemma DownRefuses(s: State, c: Command)
    requires !s.up && !c.Restart?
    ensures Exec(s, c).state == s && Exec(s, c).reply == ErrReply
  {}

  /** Restart: exactly the stored rules are cached, each with its stored value; running are exactly those marked open
      whose worker comes up; storage is as it was. If the rules cannot be read there is no server, and nothing else
      changes. */
  lemma RestartOutcome(s: State, c: Command)
    requires c.Restart?
    ensures var t, reply := Exec(s, c).state, Exec(s, c).reply;
      && reply == (if c.keys then OkReply else ErrReply) && t.up == c.keys && t.rules == s.rules
      && (c.keys ==> forall r :: (r in t.cache <==> r in s.rules) && (r in s.rules ==> t.cache[r] == s.rules[r].value))
      && (c.keys ==> forall r :: r in t.workers <==> r in s.rules && s.rules[r].isopen && r !in c.failing)
      && (!c.keys ==> t.cache == map[] && t.workers == {} && t.library == s.library)
  {}

  /** Over every run: as long as no set and no other restart comes after, the cache has the value stored at the
      restart. */
  lemma RestartCaches(s: State, c: Command, rule: string, after: seq<Command>)
    requires c.Restart? && c.keys && Quiet(after, rule)
    ensures var t := Run(Exec(s, c).state, after);
      && (rule in t.cache ==> rule in s.rules && t.cache[rule] == s.rules[rule].value)
      && (rule in s.rules && NeverDropped(after, rule) ==> rule in t.cache)
  {
    RestartOutcome(s, c);
    QuietRun(Exec(s, c).state, after, rule);
  }

  /** After a restart, a commit of a stored rule is accepted and keeps its stored value. */
  lemma RestartThenCommit(s: State, c: Command, rule: string)
    requires c.Restart? && c.keys && rule in s.rules
    ensures var r := Exec(Exec(s, c).state, Commit(rule, true));
      r.reply == OkReply && rule in r.state.rules && r.state.rules[rule].value == s.rules[rule].value
  {
    RestartOutcome(s, c);
    hide ExecRestart;
    CommitOutcome(Exec(s, c).state, rule, true);
  }

  /** After a restart, a fault-free start of a stored rule, open or closed, leaves it running. */
  lemma RestartThenStart(s: State, c: Command, start: Command)
    requires c.Restart? && c.keys && start.Start? && start.rule in s.rules && FaultFree(start)
    ensures var r := Exec(Exec(s, c).state, start);
      r.reply == StringReply && start.rule in r.state.workers && r.state.rules[start.rule].isopen
  {
    RestartOutcome(s, c);
  }

  // ---------- Start and stop: the answer, the mark and the positions ----------

  /** The documents of a rule after a save: those saved have their new offsets, the others of the rule and those of
      all other rules are as they were. */
  ghost predicate SavedFor(before: map<string, Documents>, after: map<string, Documents>, rule: string,
                           docs: Documents)
  {
    && rule in after
    && (forall f :: f in docs ==> f in after[rule] && after[rule][f] == docs[f])
    && (forall f :: f !in docs ==>
          (f in after[rule] <==> rule in before && f in before[rule])
          && (f in after[rule] ==> after[rule][f] == before[rule][f]))
    && (forall r :: r != rule ==> (r in after <==> r in before) && (r in before ==> after[r] == before[r]))
  }

  lemma SaveSaves(before: map<string, Documents>, rule: string, docs: Documents)
    ensures SavedFor(before, Save(before, rule, docs), rule, docs)
  {}

  /** Can the command find its rule: in the cache, and as a stored document that is read. */
  predicate Finds(s: State, c: Command)
    requires c.Start? || c.Stop?
  {
    c.rule in s.cache && c.get && c.rule in s.rules
  }

  /** Start: it answers a string exactly if the rule is found and runs already, or comes up and is marked. Positions
      are saved exactly if the worker came up, and once more if it was taken down again. */
  lemma StartSaves(s: State, c: Command)
    requires s.up && c.Start?
    ensures var t, reply := Exec(s, c).state, Exec(s, c).reply;
      var up := Finds(s, c) && c.rule !in s.workers && c.run;
      && reply == (if Finds(s, c) && (c.rule in s.workers || (c.run && c.put)) then StringReply else ErrReply)
      && (!up ==> t.library == s.library)
      && (up && c.put ==> SavedFor(s.library, t.library, c.rule, c.docs))
      && (up && !c.put ==> exists mid :: SavedFor(s.library, mid, c.rule, c.docs)
                                         && SavedFor(mid, t.library, c.rule, c.last))
  {
    var mid := Save(s.library, c.rule, c.docs);
    SaveSaves(s.library, c.rule, c.docs);
    SaveSaves(mid, c.rule, c.last);
    hide Save, SavedFor;
  }

  /** Stop: it answers a string exactly if the rule is found and either does not run or has its mark removed. A worker
      that is taken down has its last positions saved, whether or not the mark can be stored. */
  lemma StopSaves(s: State, c: Command)
    requires s.up && c.Stop?
    ensures var t, reply := Exec(s, c).state, Exec(s, c).reply;
      var down := Finds(s, c) && c.rule in s.workers;
      && reply == (if Finds(s, c) && (c.rule !in s.workers || c.put) then StringReply else ErrReply)
      && (!down ==> t == s)
      && (down ==> SavedFor(s.library, t.library, c.rule, c.docs) && c.rule !in t.workers)
      && (down && c.put ==> !t.rules[c.rule].isopen && t.rules[c.rule].value == s.rules[c.rule].value)
      && (down && !c.put ==> t.rules == s.rules)
  {
    SaveSaves(s.library, c.rule, c.docs);
    hide Save, SavedFor;
  }

  /** Restart: the positions of every worker that comes up are saved, beside those the library has, and no others. */
  lemma RestartSaves(s: State, c: Command, rule: string)
    requires c.Restart? && c.keys
    ensures var t, docs := Exec(s, c).state, At(c.saved, rule);
      && (rule in t.workers ==> rule in t.library)
      && (rule in t.workers ==> forall f :: f in docs ==> f in t.library[rule] && t.library[rule][f] == docs[f])
      && (rule in t.workers ==> forall f :: f !in docs ==>
            (f in t.library[rule] <==> rule in s.library && f in s.library[rule])
            && (f in t.library[rule] ==> t.library[rule][f] == s.library[rule][f]))
      && (rule !in t.workers ==>
            (rule in t.library <==> rule in s.library) && (rule in s.library ==> t.library[rule] == s.library[rule]))
  {
    var base: Documents := if rule in s.library then s.library[rule] else map[];
    assert base + map[] == base;
  }
}
