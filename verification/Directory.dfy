/** The directory tree of a rule, whose positions are flushed to and read back from the position library. */
module DirectoryTree {
  import Checkpoint
  import Follower

  datatype Whence = SeekStart | SeekCurrent

  datatype LastPosition = LastPosition(name: string, offset: nat, whence: Whence, reopen: bool)

  type Saved = map<string, LastPosition>

  /** The value of a tree of directories: tracked files and sub-directories, both by path. */
  datatype Tree = Tree(files: map<string, LastPosition>, dirs: map<string, Tree>)

  /** The position of every tracked file, at any depth. */
  ghost function All(t: Tree): set<LastPosition> {
    t.files.Values + set d, p | d in t.dirs && p in All(t.dirs[d]) :: p
  }

  /** A position at the end of a path of sub-directories. */
  ghost predicate Reaches(t: Tree, path: seq<string>, p: LastPosition)
    decreases |path|
  {
    if path == [] then p in t.files.Values
    else path[0] in t.dirs && Reaches(t.dirs[path[0]], path[1..], p)
  }

  lemma {:induction false} ReachedIsTracked(t: Tree, path: seq<string>, p: LastPosition)
    requires Reaches(t, path, p)
    ensures p in All(t)
    decreases |path|
  {
    if path != [] {
      ReachedIsTracked(t.dirs[path[0]], path[1..], p);
    }
  }

  lemma {:induction false} TrackedIsReached(t: Tree, p: LastPosition) returns (path: seq<string>)
    requires p in All(t)
    ensures Reaches(t, path, p)
    decreases t
  {
    if p in t.files.Values {
      path := [];
    } else {
      var d :| d in t.dirs && p in All(t.dirs[d]);
      var rest := TrackedIsReached(t.dirs[d], p);
      path := [d] + rest;
      assert path[1..] == rest;
    }
  }

  /** The tracked positions are those of the directory and of every sub-directory at any depth. */
  lemma AllIsEveryPath(t: Tree, p: LastPosition)
    ensures p in All(t) <==> exists path :: Reaches(t, path, p)
  {
    hide Reaches, All;
    if p in All(t) {
      var path := TrackedIsReached(t, p);
      assert Reaches(t, path, p);
    } else {
      forall path | Reaches(t, path, p) ensures p in All(t) {
        ReachedIsTracked(t, path, p);
      }
    }
  }

  /** Paths are distinct: no file has two positions. */
  ghost predicate Keyed(ps: set<LastPosition>) {
    forall p, q :: p in ps && q in ps && p.name == q.name ==> p == q
  }

  ghost predicate OwnNames(t: Tree) {
    && (forall n :: n in t.files ==> t.files[n].name == n)
    && (forall d :: d in t.dirs ==> OwnNames(t.dirs[d]))
  }

  datatype Entry = Missing | Found(p: LastPosition)

  function Look(docs: Saved, n: string): Entry {
    if n in docs then Found(docs[n]) else Missing
  }

  /** The documents of `ps` are written where that succeeds, and nothing else changes. */
  ghost predicate Written(before: Saved, after: Saved, ps: set<LastPosition>, ok: set<string>) {
    && (forall p :: p in ps && p.name in ok ==> Look(after, p.name) == Found(p))
    && (forall n :: n !in ok || (forall p :: p in ps ==> p.name != n) ==> Look(after, n) == Look(before, n))
  }

  lemma WrittenJoin(a: Saved, b: Saved, c: Saved, ps: set<LastPosition>, qs: set<LastPosition>, ok: set<string>)
    requires Written(a, b, ps, ok) && Written(b, c, qs, ok) && Keyed(ps + qs)
    ensures Written(a, c, ps + qs, ok)
  {
    forall p | p in ps + qs && p.name in ok ensures Look(c, p.name) == Found(p) {
      if q :| q in qs && q.name == p.name {
        assert q in ps + qs;
      } else {
        assert p in ps;
      }
    }
    forall n | n !in ok || (forall p :: p in ps + qs ==> p.name != n) ensures Look(c, n) == Look(a, n) {
      if n in ok {
        assert forall p :: p in ps ==> p in ps + qs;
        assert forall p :: p in qs ==> p in ps + qs;
      }
    }
  }

  /** The documents of the rule's collection in the position library. */
  class Library {
    var docs: Saved

    method Set(id: string, p: LastPosition, ok: bool) returns (err: bool)
      modifies this
      ensures err == !ok && docs == if ok then old(docs)[id := p] else old(docs)
    {
      err := !ok;
      if ok {
        docs := docs[id := p];
      }
    }

    method Get(id: string, ok: bool) returns (err: bool, p: LastPosition)
      ensures err == !(ok && id in docs)
      ensures !err ==> p == docs[id]
    {
      err, p := true, LastPosition(id, 0, SeekStart, false);
      if ok && id in docs {
        err, p := false, docs[id];
      }
    }

    method Del(id: string, ok: bool) returns (err: bool)
      modifies this
      ensures err == !(ok && id in old(docs)) && docs == if err then old(docs) else old(docs) - {id}
    {
      err := !(ok && id in docs);
      if !err {
        docs := docs - {id};
      }
    }
  }

  class Directory {
    var fileMap: map<string, LastPosition>
    var dirMap: map<string, Directory>
    ghost var Repr: set<Directory>

    /** The objects below this one hold the tree. */
    ghost predicate Mirrors(t: Tree)
      reads this, Repr
      decreases t
    {
      && this in Repr && fileMap == t.files && dirMap.Keys == t.dirs.Keys
      && forall d :: d in dirMap ==>
        dirMap[d] in Repr && dirMap[d].Repr <= Repr && dirMap[d].Mirrors(t.dirs[d])
    }

    /** addFile: a file is tracked unless its start cannot be recorded or it cannot be opened. */
    method AddFile(lib: Library, f: string, found: bool, saved: bool, opens: bool) returns (err: bool)
      modifies this`fileMap, lib
      ensures lib.docs == Recorded(old(lib.docs), f, found, saved)
      ensures err == !(opens && (saved || Resume(old(lib.docs), f, found).whence == SeekCurrent))
      ensures fileMap == if err then old(fileMap) else old(fileMap)[f := Resume(old(lib.docs), f, found)]
    {
      var missing, lastp := lib.Get(f, found);
      if missing || lastp.offset == 0 {
        lastp := LastPosition(f, 0, SeekStart, true);
        err := lib.Set(f, lastp, saved);
        if err {
          return true;
        }
      } else {
        lastp := LastPosition(f, lastp.offset, SeekCurrent, true);
      }
      if !opens {
        return true;
      }
      fileMap := fileMap[f := lastp];
      return false;
    }

    /** addEventFile: a file that has just been created starts over, whatever the library holds. */
    method AddEventFile(lib: Library, f: string, saved: bool, opens: bool) returns (err: bool)
      modifies this`fileMap, lib
      ensures lib.docs == if saved then old(lib.docs)[f := Resume(map[], f, false)] else old(lib.docs)
      ensures err == !(saved && opens)
      ensures fileMap == if err then old(fileMap) else old(fileMap)[f := Resume(map[], f, false)]
    {
      var lastp := LastPosition(f, 0, SeekStart, true);
      err := lib.Set(f, lastp, saved);
      if err || !opens {
        return true;
      }
      fileMap := fileMap[f := lastp];
    }

    /** removeFile: neither tracked nor recorded any more, so that it starts over when it is seen again. */
    method RemoveFile(lib: Library, f: string, ok: bool)
      modifies this`fileMap, lib
      ensures fileMap == old(fileMap) - {f}
      ensures lib.docs == if f in old(fileMap) && ok then old(lib.docs) - {f} else old(lib.docs)
      ensures f in old(fileMap) && ok ==> Resume(lib.docs, f, true) == LastPosition(f, 0, SeekStart, true)
    {
      if f !in fileMap {
        return;
      }
      var err := lib.Del(f, ok);
      fileMap := fileMap - {f};
    }

    /** The listing of a tree: the entries of its files, each exactly once, after what was there. */
    method List(r: seq<string>, ghost t: Tree) returns (out: seq<string>, ghost order: seq<LastPosition>)
      requires Mirrors(t) && OwnNames(t) && Apart(t)
      ensures Lists(order, All(t)) && out == r + Infos(order)
      decreases t
    {
      hide Lists, Infos, All, OwnNames;
      out, order := ListFiles(r, t);
      GatheredStart(t);
      var left := dirMap.Keys;
      ghost var done := t.files.Values;
      while left != {}
        invariant left <= t.dirs.Keys && Gathered(t, left, done) && Beside(t, left, done)
        invariant Lists(order, done) && out == r + Infos(order)
        decreases left
      {
        var d :| d in left;
        ghost var more;
        BesideStep(t, left, done, d);
        out, more := dirMap[d].List(out, t.dirs[d]);
        InfosJoin(r, order, more);
        ListsJoin(order, done, more, All(t.dirs[d]));
        GatheredStep(t, left, done, d);
        order := order + more;
        left, done := left - {d}, done + All(t.dirs[d]);
      }
      GatheredAll(t, done);
    }

    method ListFiles(r: seq<string>, ghost t: Tree) returns (out: seq<string>, ghost order: seq<LastPosition>)
      requires fileMap == t.files && OwnNames(t)
      ensures Lists(order, t.files.Values) && out == r + Infos(order)
    {
      out, order := r, [];
      var left := fileMap.Keys;
      ghost var done: set<LastPosition> := {};
      while left != {}
        invariant left <= fileMap.Keys && FilesDone(t.files, left, done)
        invariant forall n :: n in left ==> fileMap[n] !in done
        invariant Lists(order, done) && out == r + Infos(order)
        decreases left
      {
        var n :| n in left;
        out := out + [Info(fileMap[n])];
        InfosJoin(r, order, [fileMap[n]]);
        ListsJoin(order, done, [fileMap[n]], {fileMap[n]});
        FilesStep(t.files, left, done, n);
        order := order + [fileMap[n]];
        left, done := left - {n}, done + {fileMap[n]};
      }
      FilesAll(t.files, done);
    }

    /** The flush of a tree of any depth, where writes succeed exactly for the files in `ok`: these are mapped to their
        current positions, and nothing else of the library changes. */
    method AsyncFlush(lib: Library, ghost t: Tree, ok: set<string>)
      requires Mirrors(t) && OwnNames(t) && Keyed(All(t))
      modifies lib
      ensures Written(old(lib.docs), lib.docs, All(t), ok)
      decreases t, 1
    {
      hide Written, All, OwnNames, Keyed;
      ghost var docs := lib.docs;
      FlushFiles(lib, t, ok);
      GatheredStart(t);
      var left := dirMap.Keys;
      ghost var done := t.files.Values;
      while left != {}
        invariant left <= t.dirs.Keys && Mirrors(t)
        invariant Gathered(t, left, done)
        invariant Written(docs, lib.docs, done, ok)
        decreases left
      {
        var d :| d in left;
        FlushChild(lib, t, d, ok, docs, done);
        GatheredStep(t, left, done, d);
        left, done := left - {d}, done + All(t.dirs[d]);
      }
      GatheredAll(t, done);
    }

    method FlushChild(lib: Library, ghost t: Tree, d: string, ok: set<string>, ghost docs: Saved,
                      ghost done: set<LastPosition>)
      requires Mirrors(t) && OwnNames(t) && Keyed(All(t)) && d in t.dirs
      requires done <= All(t) && Written(docs, lib.docs, done, ok)
      modifies lib
      ensures Mirrors(t) && Written(docs, lib.docs, done + All(t.dirs[d]), ok)
      decreases t, 0
    {
      hide Written, All, OwnNames;
      ghost var mid := lib.docs;
      Sub(t, d);
      dirMap[d].AsyncFlush(lib, t.dirs[d], ok);
      WrittenJoin(docs, mid, lib.docs, done, All(t.dirs[d]), ok);
    }

    method FlushFiles(lib: Library, ghost t: Tree, ok: set<string>)
      requires fileMap == t.files && OwnNames(t) && Keyed(All(t))
      modifies lib
      ensures Written(old(lib.docs), lib.docs, t.files.Values, ok)
    {
      ghost var docs := lib.docs;
      var left := fileMap.Keys;
      ghost var done: set<LastPosition> := {};
      while left != {}
        invariant left <= fileMap.Keys && FilesDone(t.files, left, done)
        invariant Written(docs, lib.docs, done, ok)
        decreases left
      {
        var n :| n in left;
        FlushFile(lib, t, n, ok, docs, done);
        FilesStep(t.files, left, done, n);
        left, done := left - {n}, done + {t.files[n]};
      }
      FilesAll(t.files, done);
    }

    method FlushFile(lib: Library, ghost t: Tree, n: string, ok: set<string>, ghost docs: Saved,
                     ghost done: set<LastPosition>)
      requires fileMap == t.files && OwnNames(t) && Keyed(All(t)) && n in t.files
      requires done <= All(t) && Written(docs, lib.docs, done, ok)
      modifies lib
      ensures Written(docs, lib.docs, done + {t.files[n]}, ok)
    {
      ghost var mid := lib.docs;
      var err := lib.Set(fileMap[n].name, fileMap[n], n in ok);
      OneWritten(docs, mid, lib.docs, done, fileMap[n], ok);
    }
  }

  /** Where the follower of a file starts: at its document if that can be read and is past the start of the file. */
  function Resume(docs: Saved, f: string, found: bool): (p: LastPosition)
    ensures p.name == f && p.reopen && (p.whence == SeekStart ==> p.offset == 0)
  {
    if found && f in docs && docs[f].offset != 0 then LastPosition(f, docs[f].offset, SeekCurrent, true)
    else LastPosition(f, 0, SeekStart, true)
  }

  /** The library after the start: a follower that starts over is recorded. */
  function Recorded(docs: Saved, f: string, found: bool, saved: bool): Saved {
    if Resume(docs, f, found).whence == SeekStart && saved then docs[f := Resume(docs, f, found)] else docs
  }

  function StoredOf(docs: Saved, f: string): Checkpoint.Stored {
    if f in docs then Checkpoint.Record(docs[f].offset) else Checkpoint.NoRecord
  }

  /** The restart of a single file in the checkpoint protocol is what addFile does to its document and position. */
  lemma AddFileIsRestart(s: Checkpoint.System, docs: Saved, f: string, found: bool, saved: bool, opens: bool)
    requires !s.up && s.stored == StoredOf(docs, f)
    ensures var u := Checkpoint.Next(s, Checkpoint.Restart(found, saved, opens));
      && (u.up <==> opens && (saved || Resume(docs, f, found).whence == SeekCurrent))
      && (u.up ==> u.memory == Resume(docs, f, found).offset && u.f == Follower.Opened(u.memory))
      && u.stored == StoredOf(Recorded(docs, f, found, saved), f)
  {}

  /** Removing a file deletes its document if it can, as the checkpoint protocol forgets it. */
  lemma RemoveFileForgets(s: Checkpoint.System, docs: Saved, f: string, ok: bool)
    requires s.up && s.stored == StoredOf(docs, f)
    ensures var u := Checkpoint.Next(s, Checkpoint.Forget(ok));
      !u.up && u.stored == StoredOf(if ok then docs - {f} else docs, f)
  {}

  /** The flush of a tree takes, for each of its files, the flush step of the checkpoint protocol, and a file tracked
      again afterwards resumes at the flushed offset. */
  lemma FlushIsEachFlush(before: Saved, after: Saved, t: Tree, ok: set<string>, p: LastPosition, s: Checkpoint.System)
    requires Written(before, after, All(t), ok) && p in All(t)
    requires s.memory == p.offset && s.stored == StoredOf(before, p.name)
    ensures Checkpoint.Next(s, Checkpoint.Flush(p.name in ok)).stored == StoredOf(after, p.name)
    ensures p.name in ok ==> Resume(after, p.name, true).offset == p.offset
  {
    assert p.name in ok ==> Look(after, p.name) == Found(p);
    assert p.name !in ok ==> Look(after, p.name) == Look(before, p.name);
  }

  ghost predicate FilesDone(files: map<string, LastPosition>, left: set<string>, done: set<LastPosition>) {
    done <= files.Values && forall n :: n in files && n !in left ==> files[n] in done
  }

  lemma FilesStep(files: map<string, LastPosition>, left: set<string>, done: set<LastPosition>, n: string)
    requires FilesDone(files, left, done) && n in files
    ensures FilesDone(files, left - {n}, done + {files[n]})
  {}

  lemma FilesAll(files: map<string, LastPosition>, done: set<LastPosition>)
    requires FilesDone(files, {}, done)
    ensures done == files.Values
  {}

  /** All positions but those of some sub-directories. */
  ghost predicate Gathered(t: Tree, left: set<string>, done: set<LastPosition>) {
    && t.files.Values <= done <= All(t)
    && forall d :: d in t.dirs && d !in left ==> All(t.dirs[d]) <= done
  }

  lemma GatheredStart(t: Tree)
    ensures Gathered(t, t.dirs.Keys, t.files.Values)
  {}

  lemma GatheredStep(t: Tree, left: set<string>, done: set<LastPosition>, d: string)
    requires Gathered(t, left, done) && d in t.dirs
    ensures Gathered(t, left - {d}, done + All(t.dirs[d]))
  {}

  lemma GatheredAll(t: Tree, done: set<LastPosition>)
    requires Gathered(t, {}, done)
    ensures done == All(t)
  {}

  lemma OneWritten(a: Saved, b: Saved, c: Saved, ps: set<LastPosition>, p: LastPosition, ok: set<string>)
    requires Written(a, b, ps, ok) && Keyed(ps + {p})
    requires c == if p.name in ok then b[p.name := p] else b
    ensures Written(a, c, ps + {p}, ok)
  {
    assert Written(b, c, {p}, ok);
    WrittenJoin(a, b, c, ps, {p}, ok);
  }

  // ---------- Listing ----------

  function Decimal(n: nat): string {
    if n < 10 then ["0123456789"[n]] else Decimal(n / 10) + ["0123456789"[n % 10]]
  }

  function Info(p: LastPosition): string {
    "name:" + p.name + ",offset:" + Decimal(p.offset)
  }

  predicate AllDigits(s: string) {
    forall i :: 0 <= i < |s| ==> '0' <= s[i] <= '9'
  }

  /** A string of digits read from left to right. */
  function ReadDigits(s: string, read: nat): nat
    requires AllDigits(s)
    decreases |s|
  {
    if s == [] then read else ReadDigits(s[1..], 10 * read + (s[0] as int - '0' as int))
  }

  lemma {:induction false} ReadDigitsSnoc(s: string, d: char, read: nat)
    requires AllDigits(s) && '0' <= d <= '9'
    ensures ReadDigits(s + [d], read) == 10 * ReadDigits(s, read) + (d as int - '0' as int)
    decreases |s|
  {
    if s == [] {
      assert s + [d] == [d] && [d][1..] == [];
    } else {
      assert (s + [d])[1..] == s[1..] + [d];
      ReadDigitsSnoc(s[1..], d, 10 * read + (s[0] as int - '0' as int));
    }
  }

  lemma DigitIs(k: nat)
    requires k < 10
    ensures '0' <= "0123456789"[k] <= '9' && "0123456789"[k] as int - '0' as int == k
  {}

  /** Reading a written offset gives it back, and only 0 starts with a zero. */
  lemma {:induction false} DecimalReads(n: nat)
    ensures Decimal(n) != [] && AllDigits(Decimal(n)) && ReadDigits(Decimal(n), 0) == n
    ensures Decimal(n)[0] == '0' <==> n == 0
  {
    DigitIs(n % 10);
    if n < 10 {
      assert Decimal(n) == [] + ["0123456789"[n]];
      ReadDigitsSnoc([], "0123456789"[n], 0);
    } else {
      DecimalReads(n / 10);
      ReadDigitsSnoc(Decimal(n / 10), "0123456789"[n % 10], 0);
    }
  }

  /** The digits at the end of a string, up to the last colon. */
  predicate EndsIn(s: string, digits: string) {
    && |digits| < |s| && AllDigits(digits)
    && s[|s| - |digits|..] == digits && s[|s| - |digits| - 1] == ':'
  }

  lemma ShorterEnd(s: string, a: string, b: string)
    requires EndsIn(s, a) && EndsIn(s, b)
    ensures |a| <= |b|
  {
    forall k | |s| - |a| <= k < |s| ensures s[k] != ':' {
      assert s[k] == a[k - (|s| - |a|)];
    }
  }

  lemma InfoParts(p: LastPosition)
    ensures var s, a := Info(p), Decimal(p.offset);
      EndsIn(s, a) && 5 <= |s| - |a| - 8 && s[..5] == "name:" && s[5..|s| - |a| - 8] == p.name
  {
    DecimalReads(p.offset);
  }

  /** In an entry, what is behind the last colon is the offset, and so the entry determines name and offset. */
  lemma InfoDetermines(p: LastPosition, q: LastPosition)
    requires Info(p) == Info(q)
    ensures p.name == q.name && p.offset == q.offset
  {
    hide Decimal, Info, ReadDigits, EndsIn;
    InfoParts(p);
    InfoParts(q);
    ShorterEnd(Info(p), Decimal(p.offset), Decimal(q.offset));
    ShorterEnd(Info(p), Decimal(q.offset), Decimal(p.offset));
    SameEnd(Info(p), Decimal(p.offset), Decimal(q.offset));
    DecimalReads(p.offset);
    DecimalReads(q.offset);
  }

  lemma SameEnd(s: string, a: string, b: string)
    requires EndsIn(s, a) && EndsIn(s, b) && |a| == |b|
    ensures a == b
  {}

  function Infos(ps: seq<LastPosition>): seq<string> {
    seq(|ps|, i requires 0 <= i < |ps| => Info(ps[i]))
  }

  /** No position is tracked at two places of the tree. */
  ghost predicate Apart(t: Tree) {
    && (forall d :: d in t.dirs ==> Apart(t.dirs[d]) && All(t.dirs[d]) !! t.files.Values)
    && forall d, e :: d in t.dirs && e in t.dirs && d != e ==> All(t.dirs[d]) !! All(t.dirs[e])
  }

  ghost predicate Beside(t: Tree, left: set<string>, done: set<LastPosition>) {
    forall d :: d in t.dirs && d in left ==> All(t.dirs[d]) !! done
  }

  lemma BesideStep(t: Tree, left: set<string>, done: set<LastPosition>, d: string)
    requires Apart(t) && OwnNames(t) && Beside(t, left, done) && d in t.dirs && d in left
    ensures Beside(t, left - {d}, done + All(t.dirs[d])) && All(t.dirs[d]) !! done
    ensures Apart(t.dirs[d]) && OwnNames(t.dirs[d])
  {}

  /** The sequence holds the set, each element once. */
  ghost predicate Lists(order: seq<LastPosition>, ps: set<LastPosition>) {
    && (forall p :: p in order <==> p in ps)
    && forall i, j :: 0 <= i < j < |order| ==> order[i] != order[j]
  }

  lemma ListsJoin(a: seq<LastPosition>, ps: set<LastPosition>, b: seq<LastPosition>, qs: set<LastPosition>)
    requires Lists(a, ps) && Lists(b, qs) && ps !! qs
    ensures Lists(a + b, ps + qs)
  {
    forall i, j | 0 <= i < j < |a + b| ensures (a + b)[i] != (a + b)[j] {
      if i < |a| <= j {
        assert a[i] in ps && b[j - |a|] in qs;
      }
    }
  }

  lemma InfosJoin(r: seq<string>, a: seq<LastPosition>, b: seq<LastPosition>)
    ensures r + Infos(a + b) == r + Infos(a) + Infos(b)
  {}

  lemma Sub(t: Tree, d: string)
    requires d in t.dirs && Keyed(All(t)) && OwnNames(t)
    ensures All(t.dirs[d]) <= All(t) && Keyed(All(t.dirs[d])) && OwnNames(t.dirs[d])
  {}
}
