/** The server as it runs: objects updated in place, shown to do what the life of a rule says. */
module ServerLoop {
  import opened Lifecycle

  /** The rule cache. */
  class Cache {
    var data: map<string, string>

    constructor ()
      ensures data == map[]
    {
      data := map[];
    }

    method Get(key: string) returns (err: bool, value: string)
      ensures err == (key !in data)
      ensures !err ==> value == data[key]
    {
      err, value := true, "";
      if key in data {
        err, value := false, data[key];
      }
    }

    method Set(key: string, value: string)
      modifies this
      ensures data == old(data)[key := value]
    {
      data := data[key := value];
    }

    method Del(key: string)
      modifies this
      ensures data == old(data) - {key}
    {
      data := data - {key};
    }
  }

  /** A document with the identifier it is stored under. */
  datatype Document = Document(id: string, persist: Persist)

  function Ids(list: seq<Document>): set<string> {
    set d | d in list :: d.id
  }

  /** The list holds exactly the stored documents, each once. */
  predicate Lists(list: seq<Document>, rules: map<string, Persist>) {
    && (forall i, j :: 0 <= i < j < |list| ==> list[i].id != list[j].id)
    && (forall i :: 0 <= i < |list| ==> list[i].id in rules && rules[list[i].id] == list[i].persist)
    && Ids(list) == rules.Keys
  }

  /** The database: the rule collection and the position library. In each call `ok` says whether the database could
      be reached; if not, nothing changes. */
  class Storage {
    var rules: map<string, Persist>
    var library: map<string, Documents>

    constructor (found: map<string, Persist>, positions: map<string, Documents>)
      ensures rules == found && library == positions
    {
      rules, library := found, positions;
    }

    /** GET. */
    method Get(id: string, ok: bool) returns (err: bool, p: Persist)
      ensures err == !(ok && id in rules)
      ensures !err ==> p == rules[id]
    {
      err, p := true, Persist("", false);
      if ok && id in rules {
        err, p := false, rules[id];
      }
    }

    /** SET replaces the whole document, or makes a new one. */
    method Put(id: string, p: Persist, ok: bool) returns (err: bool)
      modifies `rules
      ensures err == !ok
      ensures rules == if ok then old(rules)[id := p] else old(rules)
    {
      err := !ok;
      if ok {
        rules := rules[id := p];
      }
    }

    /** DEL of a missing document is an error. */
    method Del(id: string, ok: bool) returns (err: bool)
      modifies `rules
      ensures err == !(ok && id in old(rules))
      ensures rules == if err then old(rules) else old(rules) - {id}
    {
      err := !(ok && id in rules);
      if !err {
        rules := rules - {id};
      }
    }

    /** REMOVEALL empties a collection of the library, which need not exist. */
    method RemoveAll(collection: string, ok: bool) returns (err: bool)
      modifies `library
      ensures err == !ok
      ensures library == if ok then old(library) - {collection} else old(library)
    {
      err := !ok;
      if ok {
        library := library - {collection};
      }
    }

    method SavePositions(collection: string, docs: Documents)
      modifies `library
      ensures library == Save(old(library), collection, docs)
    {
      library := library[collection := (if collection in library then library[collection] else map[]) + docs];
    }

    /** KEYS: all documents, in some order. */
    method Keys(ok: bool) returns (err: bool, list: seq<Document>)
      ensures err == !ok
      ensures ok ==> Lists(list, rules)
    {
      err, list := !ok, [];
      if ok {
        list := List();
      }
    }

    method List() returns (list: seq<Document>)
      ensures Lists(list, rules)
    {
      list := [];
      var left := rules.Keys;
      while left != {}
        invariant left <= rules.Keys
        invariant Lists(list, map r | r in rules && r !in left :: rules[r])
        decreases |left|
      {
        var r :| r in left;
        Listed(list, map q | q in rules && q !in left :: rules[q], Document(r, rules[r]));
        list := list + [Document(r, rules[r])];
        left := left - {r};
      }
    }
  }

  lemma Listed(list: seq<Document>, rules: map<string, Persist>, d: Document)
    requires Lists(list, rules) && d.id !in rules
    ensures Lists(list + [d], rules[d.id := d.persist])
  {
    forall r | r in Ids(list) ensures r in Ids(list + [d]) {
      var e :| e in list && e.id == r;
      assert e in list + [d];
    }
    assert d in list + [d];
    assert Ids(list + [d]) == Ids(list) + {d.id};
  }

  /** A running directory watch, which keeps its positions in the collection of its rule's name. */
  datatype Worker = Worker(name: string)

  class Scheduler {
    var workers: map<string, Worker>

    ghost predicate Valid()
      reads this
    {
      forall n :: n in workers ==> workers[n].name == n
    }

    constructor ()
      ensures Valid() && workers == map[]
    {
      workers := map[];
    }

    method Exists(w: Worker) returns (found: bool)
      ensures found == (w.name in workers)
    {
      found := w.name in workers;
    }

    /** A worker that comes up saves the positions it starts from. */
    method Add(w: Worker, store: Storage, run: bool, docs: Documents) returns (ok: bool)
      requires Valid()
      modifies this, store`library
      ensures Valid() && ok == run
      ensures workers == if run then old(workers)[w.name := w] else old(workers)
      ensures store.library == if run then Save(old(store.library), w.name, docs) else old(store.library)
    {
      if !run {
        return false;
      }
      store.SavePositions(w.name, docs);
      workers := workers[w.name := w];
      return true;
    }

    /** A worker that is taken down saves its positions a last time. */
    method Del(w: Worker, store: Storage, docs: Documents) returns (ok: bool)
      requires Valid()
      modifies this, store`library
      ensures Valid() && ok
      ensures workers == old(workers) - {w.name}
      ensures store.library ==
        if w.name in old(workers) then Save(old(store.library), w.name, docs) else old(store.library)
    {
      if w.name in workers {
        store.SavePositions(workers[w.name].name, docs);
      }
      workers := workers - {w.name};
      return true;
    }
  }

  /** What a command's own checks hand to the server. */
  datatype Prepared =
    | Done(reply: Reply)
    | PersistReply(id: string, persist: Persist)
    | RunnerReply(rule: string)
    | DropReply(name: string)

  class Server {
    const cache: Cache
    const store: Storage
    const scheduler: Scheduler

    ghost predicate Valid()
      reads scheduler
    {
      scheduler.Valid()
    }

    /** The state as the life of a rule sees it. */
    ghost function Seen(): State
      reads cache, store, scheduler
    {
      State(true, cache.data, scheduler.workers.Keys, store.rules, store.library)
    }

    /** An object with an empty cache and no worker, on the given storage. */
    constructor (storage: Storage)
      ensures Valid() && store == storage && fresh(cache) && fresh(scheduler)
      ensures Seen() == State(true, map[], {}, storage.rules, storage.library)
    {
      cache := new Cache();
      scheduler := new Scheduler();
      store := storage;
    }

    /** The argument checks of the commands: what is needed from the cache, before anything else is looked at. */
    method Prepare(c: Command) returns (p: Prepared)
      requires Valid() && !c.Restart?
      modifies cache
      ensures Valid()
      ensures p.Done? ==> Seen() == Exec(old(Seen()), c).state && p.reply == Exec(old(Seen()), c).reply
      ensures !p.Done? ==> Seen() == old(Seen()) && p == Asked(old(Seen()), c)
    {
      match c {
        case Set(rule, value, valid) =>
          if !valid {
            return Done(ErrReply);
          }
          cache.Set(rule, value);
          return Done(OkReply);
        case Commit(rule, _) =>
          var err, value := cache.Get(rule);
          if err {
            return Done(ErrReply);
          }
          return PersistReply(rule, Persist(value, false));
        case Start(rule, _, _, _, _, _) =>
          var err, value := cache.Get(rule);
          return if err then Done(ErrReply) else RunnerReply(rule);
        case Stop(rule, _, _, _) =>
          var err, value := cache.Get(rule);
          return if err then Done(ErrReply) else RunnerReply(rule);
        case Drop(rule, _, _) =>
          return DropReply(rule);
      }
    }

    /** The commit: one write of the whole document. */
    method Persisted(c: Command, p: Prepared) returns (reply: Reply)
      requires Valid() && c.Commit? && c.rule in cache.data
      requires p == PersistReply(c.rule, Persist(cache.data[c.rule], false))
      modifies store`rules
      ensures Valid() && Seen() == ExecCommit(old(Seen()), c).state && reply == ExecCommit(old(Seen()), c).reply
    {
      var err := store.Put(p.id, p.persist, c.put);
      return if err then ErrReply else OkReply;
    }

    method Started(c: Command, rule: string) returns (reply: Reply)
      requires Valid() && c.Start? && rule == c.rule && rule in cache.data
      modifies store, scheduler
      ensures Valid() && Seen() == ExecStart(old(Seen()), c).state && reply == ExecStart(old(Seen()), c).reply
    {
      var err, p := store.Get(rule, c.get);
      if err {
        return ErrReply;
      }
      var w := Worker(rule);
      var running := scheduler.Exists(w);
      if running {
        return StringReply;
      }
      var ok := scheduler.Add(w, store, c.run, c.docs);
      if !ok {
        return ErrReply;
      }
      err := store.Put(rule, p.(isopen := true), c.put);
      if err {
        ok := scheduler.Del(w, store, c.last);
        return ErrReply;
      }
      return StringReply;
    }

    method Stopped(c: Command, rule: string) returns (reply: Reply)
      requires Valid() && c.Stop? && rule == c.rule && rule in cache.data
      modifies store, scheduler
      ensures Valid() && Seen() == ExecStop(old(Seen()), c).state && reply == ExecStop(old(Seen()), c).reply
    {
      var err, p := store.Get(rule, c.get);
      if err {
        return ErrReply;
      }
      var w := Worker(rule);
      var running := scheduler.Exists(w);
      if !running {
        return StringReply;
      }
      var ok := scheduler.Del(w, store, c.docs);
      err := store.Put(rule, p.(isopen := false), c.put);
      return if err then ErrReply else StringReply;
    }

    /** The drop: the cache first, then the library, with the cache put back if that fails, then the document. */
    method Dropped(c: Command, rule: string) returns (reply: Reply)
      requires Valid() && c.Drop? && rule == c.rule
      modifies cache, store
      ensures Valid() && Seen() == ExecDrop(old(Seen()), c).state && reply == ExecDrop(old(Seen()), c).reply
    {
      var running := scheduler.Exists(Worker(rule));
      if running {
        return ErrReply;
      }
      var err, value := cache.Get(rule);
      if err {
        return ErrReply;
      }
      cache.Del(rule);
      err := store.RemoveAll(rule, c.clear);
      if err {
        cache.Set(rule, value);
        return ErrReply;
      }
      err := store.Del(rule, c.del);
      return if err then ErrReply else OkReply;
    }

    /** One stored rule at a restart. */
    method Load(d: Document, c: Command)
      requires Valid() && c.Restart?
      modifies cache, scheduler, store`library
      ensures Valid() && Seen() == LoadOne(old(Seen()), d, c)
    {
      cache.Set(d.id, d.persist.value);
      if d.persist.isopen {
        var w := Worker(d.id);
        var running := scheduler.Exists(w);
        if !running {
          var ok := scheduler.Add(w, store, d.id !in c.failing, At(c.saved, d.id));
        }
      }
    }

    /** All stored rules at a restart. */
    method LoadAll(list: seq<Document>, c: Command)
      requires Valid() && c.Restart? && Lists(list, store.rules)
      requires cache.data == map[] && scheduler.workers == map[]
      modifies cache, scheduler, store`library
      ensures Valid() && Loaded(Seen(), store.rules, old(store.library), c)
    {
      hide Loaded, Part, Ids, Lists;
      ghost var part: map<string, Persist> := map[];
      LoadedNone(Seen(), list, c);
      for i := 0 to |list|
        invariant Valid() && store.rules == old(store.rules)
        invariant part == Part(store.rules, Ids(list[..i]))
        invariant Loaded(Seen(), part, old(store.library), c)
      {
        ghost var seen := Seen();
        PartSnoc(store.rules, list, i);
        Load(list[i], c);
        LoadedStep(seen, part, list[i], old(store.library), c);
        part := part[list[i].id := list[i].persist];
      }
      PartAll(store.rules, list);
    }

    /** One command, from its own checks to its reply. */
    method Execute(c: Command) returns (reply: Reply)
      requires Valid() && !c.Restart?
      modifies cache, store, scheduler
      ensures Valid() && Seen() == Exec(old(Seen()), c).state && reply == Exec(old(Seen()), c).reply
    {
      var p := Prepare(c);
      match p {
        case Done(r) => reply := r;
        case PersistReply(_, _) => reply := Persisted(c, p);
        case RunnerReply(rule) =>
          if c.Start? {
            reply := Started(c, rule);
          } else {
            reply := Stopped(c, rule);
          }
        case DropReply(rule) => reply := Dropped(c, rule);
      }
    }
  }

  /** The restart: every stored rule enters the cache, and those marked open get a worker. */
  method NewServer(store: Storage, c: Command) returns (server: Server?)
    requires c.Restart?
    modifies store`library
    ensures var before := State(false, map[], {}, old(store.rules), old(store.library));
      && (server == null <==> Exec(before, c).reply == ErrReply)
      && (server == null ==> store.library == old(store.library))
      && (server != null ==> fresh(server) && server.store == store && server.Valid()
                             && server.Seen() == Exec(before, c).state)
  {
    var s := new Server(store);
    var err, list := store.Keys(c.keys);
    if err {
      return null;
    }
    s.LoadAll(list, c);
    return s;
  }

  ghost function Asked(s: State, c: Command): Prepared {
    match c
    case Commit(rule, _) =>
      if rule in s.cache then PersistReply(rule, Persist(s.cache[rule], false)) else Done(ErrReply)
    case Start(rule, _, _, _, _, _) => if rule in s.cache then RunnerReply(rule) else Done(ErrReply)
    case Stop(rule, _, _, _) => if rule in s.cache then RunnerReply(rule) else Done(ErrReply)
    case Drop(rule, _, _) => DropReply(rule)
    case _ => Done(ErrReply)
  }

  ghost function LoadOne(s: State, d: Document, c: Command): State
    requires c.Restart?
  {
    var t := s.(cache := s.cache[d.id := d.persist.value]);
    if d.persist.isopen && d.id !in s.workers && d.id !in c.failing
    then t.(workers := s.workers + {d.id}, library := Save(s.library, d.id, At(c.saved, d.id)))
    else t
  }

  function Part(rules: map<string, Persist>, ids: set<string>): map<string, Persist> {
    map r | r in rules && r in ids :: rules[r]
  }

  /** The state after a part of the stored rules. */
  ghost predicate Loaded(s: State, part: map<string, Persist>, library: map<string, Documents>, c: Command)
    requires c.Restart?
  {
    && s.up && s.cache == Values(part) && s.workers == Opening(part, c.failing)
    && s.library == Saved(library, s.workers, c.saved)
  }

  lemma LoadedNone(s: State, list: seq<Document>, c: Command)
    requires c.Restart? && s.up && s.cache == map[] && s.workers == {}
    ensures Loaded(s, map[], s.library, c) && Part(s.rules, Ids(list[..0])) == map[]
  {
    NothingSaved(s.library, c.saved);
  }

  lemma PartAll(rules: map<string, Persist>, list: seq<Document>)
    requires Lists(list, rules)
    ensures Part(rules, Ids(list[..|list|])) == rules
  {
    assert list[..|list|] == list;
  }

  lemma LoadedStep(s: State, part: map<string, Persist>, d: Document, library: map<string, Documents>, c: Command)
    requires c.Restart? && d.id !in part && Loaded(s, part, library, c)
    ensures Loaded(LoadOne(s, d, c), part[d.id := d.persist], library, c)
  {
    ValuesStep(part, d);
    OpeningStep(part, d, c.failing);
    SavedStep(library, s.workers, d.id, c.saved);
  }

  lemma ValuesStep(part: map<string, Persist>, d: Document)
    requires d.id !in part
    ensures Values(part[d.id := d.persist]) == Values(part)[d.id := d.persist.value]
  {}

  lemma OpeningStep(part: map<string, Persist>, d: Document, failing: set<string>)
    requires d.id !in part
    ensures d.id !in Opening(part, failing)
    ensures Opening(part[d.id := d.persist], failing)
         == Opening(part, failing) + (if d.persist.isopen && d.id !in failing then {d.id} else {})
  {}

  lemma PartSnoc(rules: map<string, Persist>, list: seq<Document>, i: nat)
    requires i < |list| && Lists(list, rules)
    ensures Part(rules, Ids(list[..i + 1])) == Part(rules, Ids(list[..i]))[list[i].id := list[i].persist]
    ensures list[i].id !in Part(rules, Ids(list[..i]))
  {
    assert list[..i + 1] == list[..i] + [list[i]];
    forall r | r in Ids(list[..i]) ensures r in Ids(list[..i + 1]) {
      var e :| e in list[..i] && e.id == r;
      assert e in list[..i + 1];
    }
    assert list[i] in list[..i + 1];
    assert Ids(list[..i + 1]) == Ids(list[..i]) + {list[i].id};
  }

  lemma NothingSaved(library: map<string, Documents>, saved: map<string, Documents>)
    ensures Saved(library, {}, saved) == library
  {
    forall r | r in library ensures Saved(library, {}, saved)[r] == library[r] {
      assert library[r] + map[] == library[r];
    }
  }

  lemma SavedStep(library: map<string, Documents>, started: set<string>, id: string, saved: map<string, Documents>)
    requires id !in started
    ensures Saved(library, started + {id}, saved) == Save(Saved(library, started, saved), id, At(saved, id))
  {
    var after, before := Saved(library, started + {id}, saved), Saved(library, started, saved);
    SavedKeys(library, started, id, saved);
    SavedAt(library, started, id, saved);
    forall r | r in after && r != id ensures after[r] == before[r] {
      SavedBeside(library, started, id, saved, r);
    }
    hide Saved;
  }

  lemma SavedKeys(library: map<string, Documents>, started: set<string>, id: string, saved: map<string, Documents>)
    ensures Saved(library, started + {id}, saved).Keys == Saved(library, started, saved).Keys + {id}
  {}

  lemma SavedBeside(library: map<string, Documents>, started: set<string>, id: string, saved: map<string, Documents>,
                    r: string)
    requires r in Saved(library, started, saved) && r != id
    ensures r in Saved(library, started + {id}, saved)
    ensures Saved(library, started + {id}, saved)[r] == Saved(library, started, saved)[r]
  {}

  lemma SavedAt(library: map<string, Documents>, started: set<string>, id: string, saved: map<string, Documents>)
    requires id !in started
    ensures id in Saved(library, started + {id}, saved)
    ensures Saved(library, started + {id}, saved)[id] == Save(Saved(library, started, saved), id, At(saved, id))[id]
  {
    var base := if id in library then library[id] else map[];
    assert base + map[] == base && map[] + At(saved, id) == At(saved, id);
  }
}
