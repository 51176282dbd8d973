/** Server variables kept by every worker process and exchanged through one versioned file per process:
    the newest create time wins. */
module ServerVars {

  type Name = string

  datatype Var = Var(create: nat, value: string)

  type Vars = map<Name, Var>

  /** A process's file: the version in its first line, then its variables. */
  datatype File = File(version: nat, vars: Vars)

  /** File `i` belongs to process `i`. */
  type Files = map<nat, File>

  /** A process: its variables, and for each file the version it last wrote or read. */
  datatype Proc = Proc(vars: Vars, versions: map<nat, nat>) {
    function VersionOf(f: nat): nat {
      if f in versions then versions[f] else 0
    }
  }

  const FRESH := Proc(map[], map[])

  // ---- The operations as functions ----

  /** A line read from a file replaces an older variable and adds a missing one. */
  predicate Replaces(mine: Vars, name: Name, theirs: Var) {
    name !in mine || mine[name].create < theirs.create
  }

  function Merge(mine: Vars, theirs: Vars): (m: Vars)
    ensures m.Keys == mine.Keys + theirs.Keys
  {
    map n | n in mine.Keys + theirs.Keys ::
      if n in theirs && Replaces(mine, n, theirs[n]) then theirs[n] else mine[n]
  }

  /** One file of the directory: skipped when its version is the one remembered. */
  function ReloadFile(p: Proc, files: Files, f: nat): Proc {
    if f !in files || p.VersionOf(f) == files[f].version then p
    else Proc(Merge(p.vars, files[f].vars), p.versions[f := files[f].version])
  }

  function Reload(p: Proc, files: Files, order: seq<nat>): Proc
    decreases |order|
  {
    if order == [] then p else Reload(ReloadFile(p, files, order[0]), files, order[1..])
  }

  /** Writes the process's file, one version up; nothing is written while there is nothing to write. */
  function SaveVersion(p: Proc, i: nat): Proc {
    if p.vars == map[] then p else p.(versions := p.versions[i := p.VersionOf(i) + 1])
  }

  function SaveFile(p: Proc, i: nat, files: Files): Files {
    if p.vars == map[] then files else files[i := File(p.VersionOf(i) + 1, p.vars)]
  }

  // ---- The object ----

  /** The variable directory, shared by all processes. */
  class Directory {
    var files: Files

    constructor ()
      ensures files == map[]
    {
      files := map[];
    }
  }

  class ServerVarCache {
    const processSeq: nat
    const dir: Directory
    var vars: Vars
    var versions: map<nat, nat>

    constructor (processSeq: nat, dir: Directory)
      ensures Abstract() == FRESH && this.processSeq == processSeq && this.dir == dir
    {
      this.processSeq, this.dir := processSeq, dir;
      vars, versions := map[], map[];
    }

    function Abstract(): Proc
      reads this
    {
      Proc(vars, versions)
    }

    /** `_save_server_vars_`. */
    method Save()
      modifies this`versions, dir
      ensures Abstract() == SaveVersion(old(Abstract()), processSeq)
      ensures dir.files == SaveFile(old(Abstract()), processSeq, old(dir.files))
    {
      if |vars| > 0 {
        var version := if processSeq in versions then versions[processSeq] else 0;
        version := version + 1;
        versions := versions[processSeq := version];
        dir.files := dir.files[processSeq := File(version, vars)];
      }
    }

    /** `push_server_var` at time `now`. */
    method Push(name: Name, value: string, now: nat)
      modifies this`vars, this`versions, dir
      ensures var p := old(Abstract()).(vars := old(vars)[name := Var(now, value)]);
              && Abstract() == SaveVersion(p, processSeq)
              && dir.files == SaveFile(p, processSeq, old(dir.files))
    {
      vars := vars[name := Var(now, value)];
      Save();
    }

    /** The lines of one file, in any order. */
    method MergeLines(theirs: Vars)
      modifies this`vars
      ensures vars == Merge(old(vars), theirs)
    {
      var names := theirs.Keys;
      ghost var done: set<Name> := {};
      while names != {}
        invariant done + names == theirs.Keys && done !! names
        invariant vars == Merge(old(vars), map n | n in done :: theirs[n])
        decreases names
      {
        var name :| name in names;
        if Replaces(vars, name, theirs[name]) {
          vars := vars[name := theirs[name]];
        }
        names := names - {name};
        done := done + {name};
      }
      assert (map n | n in done :: theirs[n]) == theirs;
    }

    /** `_reload_server_vars_`, with the directory listed in the given order. */
    method ReloadAll(order: seq<nat>)
      modifies this`vars, this`versions
      ensures Abstract() == Reload(old(Abstract()), dir.files, order)
    {
      var k := 0;
      assert order[0..] == order;
      while k < |order|
        invariant 0 <= k <= |order|
        invariant Reload(Abstract(), dir.files, order[k..]) == Reload(old(Abstract()), dir.files, order)
      {
        var f := order[k];
        assert order[k..][1..] == order[k + 1..];
        if f in dir.files {
          var known := if f in versions then versions[f] else 0;
          if known != dir.files[f].version {
            versions := versions[f := dir.files[f].version];
            MergeLines(dir.files[f].vars);
          }
        }
        k := k + 1;
      }
    }

    /** `get_server_var`: reload, then look the name up. */
    method Get(name: Name, order: seq<nat>) returns (found: bool, value: string)
      modifies this`vars, this`versions
      ensures Abstract() == Reload(old(Abstract()), dir.files, order)
      ensures found == (name in vars) && (found ==> value == vars[name].value)
    {
      ReloadAll(order);
      found := name in vars;
      value := if found then vars[name].value else "";
    }
  }

  // ---- Many processes ----

  /** `pushes` records every push made: name, time and value. */
  datatype World = World(procs: seq<Proc>, files: Files, clock: nat, pushes: set<(Name, nat, string)>)

  datatype Step =
    | Tick(now: nat)
    | Push(i: nat, name: Name, value: string)
    | ReadFiles(i: nat, order: seq<nat>)
    | Save(i: nat)                        // without a push, as `unload` does
    | Restart(i: nat, order: seq<nat>)    // a new process in its place: `load` reads what is there

  /** The clock does not run backwards, and a reload lists every file. */
  predicate Enabled(w: World, s: Step) {
    match s
    case Tick(now) => w.clock <= now
    case Push(i, _, _) => i < |w.procs|
    case ReadFiles(i, order) => i < |w.procs| && forall f | f in w.files :: f in order
    case Save(i) => i < |w.procs|
    case Restart(i, order) => i < |w.procs| && forall f | f in w.files :: f in order
  }

  function Pushed(p: Proc, name: Name, value: string, now: nat): Proc {
    p.(vars := p.vars[name := Var(now, value)])
  }

  function Do(w: World, s: Step): World
    requires Enabled(w, s)
  {
    match s
    case Tick(now) => w.(clock := now)
    case Push(i, name, value) =>
      var p := Pushed(w.procs[i], name, value, w.clock);
      w.(procs := w.procs[i := SaveVersion(p, i)],
         files := SaveFile(p, i, w.files),
         pushes := w.pushes + {(name, w.clock, value)})
    case ReadFiles(i, order) =>
      w.(procs := w.procs[i := Reload(w.procs[i], w.files, order)])
    case Save(i) =>
      w.(procs := w.procs[i := SaveVersion(w.procs[i], i)], files := SaveFile(w.procs[i], i, w.files))
    case Restart(i, order) =>
      w.(procs := w.procs[i := Reload(FRESH, w.files, order)])
  }

  ghost predicate Reaches(w: World, steps: seq<Step>, end: World)
    decreases |steps|
  {
    if steps == [] then end == w
    else Enabled(w, steps[0]) && Reaches(Do(w, steps[0]), steps[1..], end)
  }

  /** `n` processes that have just started on an empty directory. */
  function Start(n: nat): World {
    World(seq(n, _ => FRESH), map[], 0, {})
  }

  // ---- What holds in every reachable world ----

  /** Every variable of `theirs` is in `mine`, at least as new. */
  ghost predicate Covers(mine: Vars, theirs: Vars) {
    forall n | n in theirs :: n in mine && theirs[n].create <= mine[n].create
  }

  ghost predicate FromPushes(vars: Vars, clock: nat, pushes: set<(Name, nat, string)>) {
    forall n | n in vars :: vars[n].create <= clock && (n, vars[n].create, vars[n].value) in pushes
  }

  /** Only files that exist are remembered. */
  ghost predicate Remembers(p: Proc, files: Files) {
    forall f | f in p.versions :: f in files
  }

  /** No remembered version is ahead of its file. */
  ghost predicate Behind(p: Proc, files: Files) {
    forall f | f in files :: p.VersionOf(f) <= files[f].version
  }

  /** To remember a file's current version is to know its contents. */
  ghost predicate Knows(p: Proc, files: Files) {
    forall f | f in files && p.VersionOf(f) == files[f].version :: Covers(p.vars, files[f].vars)
  }

  /** Some file has the variable at least as new. */
  ghost predicate Published(n: Name, create: nat, files: Files) {
    exists f :: f in files && n in files[f].vars && create <= files[f].vars[n].create
  }

  ghost predicate AllPublished(vars: Vars, files: Files) {
    forall n | n in vars :: Published(n, vars[n].create, files)
  }

  ghost predicate ProcOk(p: Proc, w: World) {
    && Remembers(p, w.files) && Behind(p, w.files) && Knows(p, w.files)
    && FromPushes(p.vars, w.clock, w.pushes) && AllPublished(p.vars, w.files)
  }

  ghost predicate ProcsOk(w: World) {
    forall i | 0 <= i < |w.procs| :: ProcOk(w.procs[i], w)
  }

  /** A file is of the version its owner remembers, and holds pushed variables. */
  ghost predicate FilesOk(w: World) {
    forall f | f in w.files ::
      && f < |w.procs| && 0 < w.files[f].version == w.procs[f].VersionOf(f)
      && FromPushes(w.files[f].vars, w.clock, w.pushes)
  }

  /** What was pushed is in some file, or something newer is. */
  ghost predicate PushesOk(w: World) {
    forall p | p in w.pushes :: Published(p.0, p.1, w.files)
  }

  ghost predicate Inv(w: World) {
    ProcsOk(w) && FilesOk(w) && PushesOk(w)
  }

  ghost predicate FilesGrow(files: Files, files': Files) {
    forall f | f in files :: f in files' && Covers(files'[f].vars, files[f].vars)
  }

  /** Variables and files only grow, and create times with them. */
  ghost predicate Grows(w: World, w': World) {
    && |w.procs| == |w'.procs|
    && (forall i | 0 <= i < |w.procs| :: Covers(w'.procs[i].vars, w.procs[i].vars))
    && FilesGrow(w.files, w'.files)
  }

  lemma CoversSelf(a: Vars)
    ensures Covers(a, a)
  {
  }

  lemma CoversOn(a: Vars, b: Vars, c: Vars)
    requires Covers(b, a) && Covers(c, b)
    ensures Covers(c, a)
  {
  }

  /** A merge covers both sides and takes every variable from one of them. */
  lemma MergeFacts(mine: Vars, theirs: Vars)
    ensures var m := Merge(mine, theirs);
            && Covers(m, mine) && Covers(m, theirs)
            && (forall n | n in m :: (n in mine && m[n] == mine[n]) || (n in theirs && m[n] == theirs[n]))
  {
  }

  lemma MergePublished(mine: Vars, files: Files, f: nat)
    requires AllPublished(mine, files) && f in files
    ensures AllPublished(Merge(mine, files[f].vars), files)
  {
    hide Merge;
    var theirs := files[f].vars;
    var m := Merge(mine, theirs);
    MergeFacts(mine, theirs);
    forall n | n in m
      ensures Published(n, m[n].create, files)
    {
      if !(n in mine && m[n] == mine[n]) {
        assert n in files[f].vars && m[n].create <= files[f].vars[n].create;
      }
    }
  }

  lemma MergeKnows(p: Proc, files: Files, f: nat)
    requires Remembers(p, files) && Behind(p, files) && Knows(p, files) && f in files
    ensures var q := Proc(Merge(p.vars, files[f].vars), p.versions[f := files[f].version]);
            Remembers(q, files) && Behind(q, files) && Knows(q, files)
  {
    hide Merge, Covers;
    var q := Proc(Merge(p.vars, files[f].vars), p.versions[f := files[f].version]);
    MergeFacts(p.vars, files[f].vars);
    forall g | g in files && q.VersionOf(g) == files[g].version
      ensures Covers(q.vars, files[g].vars)
    {
      if g != f {
        assert p.VersionOf(g) == files[g].version;
        CoversOn(files[g].vars, p.vars, q.vars);
      }
    }
  }

  lemma ReloadFileKeeps(p: Proc, w: World, f: nat)
    requires ProcOk(p, w) && FilesOk(w)
    ensures var q := ReloadFile(p, w.files, f);
            && ProcOk(q, w) && Covers(q.vars, p.vars)
            && (f in w.files ==> q.VersionOf(f) == w.files[f].version)
            && (forall g | g != f :: q.VersionOf(g) == p.VersionOf(g))
  {
    hide Merge, Covers, AllPublished, Knows, Behind, Remembers;
    CoversSelf(p.vars);
    if f in w.files && p.VersionOf(f) != w.files[f].version {
      MergeFacts(p.vars, w.files[f].vars);
      MergePublished(p.vars, w.files, f);
      MergeKnows(p, w.files, f);
    }
  }

  lemma {:induction false} ReloadKeeps(p: Proc, w: World, order: seq<nat>)
    requires ProcOk(p, w) && FilesOk(w)
    ensures var q := Reload(p, w.files, order);
            && ProcOk(q, w) && Covers(q.vars, p.vars)
            && (forall f | f in w.files && (f in order || p.VersionOf(f) == w.files[f].version) ::
                  q.VersionOf(f) == w.files[f].version)
    decreases |order|
  {
    hide ProcOk, ReloadFile, FilesOk, Covers;
    CoversSelf(p.vars);
    if order != [] {
      var p1 := ReloadFile(p, w.files, order[0]);
      ReloadFileKeeps(p, w, order[0]);
      ReloadKeeps(p1, w, order[1..]);
      var q := Reload(p1, w.files, order[1..]);
      CoversOn(p.vars, p1.vars, q.vars);
      forall f | f in w.files && (f in order || p.VersionOf(f) == w.files[f].version)
        ensures q.VersionOf(f) == w.files[f].version
      {
        assert f == order[0] || f in order[1..] || p.VersionOf(f) == w.files[f].version;
      }
    }
  }

  // ---- Each step keeps the invariant ----

  lemma ReadKeeps(w: World, i: nat, order: seq<nat>)
    requires Inv(w) && Enabled(w, ReadFiles(i, order))
    ensures Inv(Do(w, ReadFiles(i, order))) && Grows(w, Do(w, ReadFiles(i, order)))
  {
    hide Reload, ProcOk, Covers;
    var w' := Do(w, ReadFiles(i, order));
    ReloadKeeps(w.procs[i], w, order);
    forall j | 0 <= j < |w'.procs|
      ensures ProcOk(w'.procs[j], w') && Covers(w'.procs[j].vars, w.procs[j].vars)
    {
      SameFiles(w'.procs[j], w, w');
      CoversSelf(w.procs[j].vars);
    }
    FilesGrowSelf(w.files);
  }

  /** What a process needs of the world is its files, its clock and its record of pushes. */
  lemma SameFiles(p: Proc, w: World, w': World)
    requires ProcOk(p, w) && w'.files == w.files && w.clock <= w'.clock && w.pushes <= w'.pushes
    ensures ProcOk(p, w')
  {
  }

  lemma FilesGrowSelf(files: Files)
    ensures FilesGrow(files, files)
  {
  }

  lemma TickKeeps(w: World, now: nat)
    requires Inv(w) && w.clock <= now
    ensures Inv(w.(clock := now)) && Grows(w, w.(clock := now))
  {
    hide ProcOk, Covers;
    var w' := w.(clock := now);
    forall j | 0 <= j < |w'.procs|
      ensures ProcOk(w'.procs[j], w') && Covers(w'.procs[j].vars, w.procs[j].vars)
    {
      SameFiles(w.procs[j], w, w');
      CoversSelf(w.procs[j].vars);
    }
    FilesGrowSelf(w.files);
  }

  // ---- Steps that write a file ----

  /** The world after process `i` has come to `vars` and written them. */
  function Written(w: World, i: nat, vars: Vars, pushes: set<(Name, nat, string)>): World
    requires i < |w.procs|
  {
    var v := w.procs[i].VersionOf(i) + 1;
    World(w.procs[i := Proc(vars, w.procs[i].versions[i := v])], w.files[i := File(v, vars)], w.clock, pushes)
  }

  /** Nothing is lost by it, and what is new was pushed now. */
  ghost predicate Writable(w: World, i: nat, vars: Vars, pushes: set<(Name, nat, string)>)
    requires i < |w.procs|
  {
    && Covers(vars, w.procs[i].vars) && w.pushes <= pushes && FromPushes(vars, w.clock, pushes)
    && (forall p | p in pushes && p !in w.pushes :: p.0 in vars && p.1 <= vars[p.0].create)
  }

  /** A push writes; so does a save, when there is something to write. */
  lemma PushIsWrite(w: World, i: nat, name: Name, value: string)
    requires i < |w.procs|
    ensures var vars, pushes := w.procs[i].vars[name := Var(w.clock, value)], w.pushes + {(name, w.clock, value)};
            Do(w, Push(i, name, value)) == Written(w, i, vars, pushes)
  {
    assert name in Pushed(w.procs[i], name, value, w.clock).vars;
  }

  lemma PushWritable(w: World, i: nat, name: Name, value: string)
    requires i < |w.procs| && FromPushes(w.procs[i].vars, w.clock, w.pushes)
    ensures var vars, pushes := w.procs[i].vars[name := Var(w.clock, value)], w.pushes + {(name, w.clock, value)};
            Writable(w, i, vars, pushes)
  {
  }

  lemma SaveIsWrite(w: World, i: nat)
    requires i < |w.procs|
    ensures Do(w, Save(i))
         == if w.procs[i].vars == map[] then w else Written(w, i, w.procs[i].vars, w.pushes)
  {
    assert w.procs[i := w.procs[i]] == w.procs;
  }

  lemma SaveWritable(w: World, i: nat)
    requires i < |w.procs| && FromPushes(w.procs[i].vars, w.clock, w.pushes)
    ensures Writable(w, i, w.procs[i].vars, w.pushes)
  {
    CoversSelf(w.procs[i].vars);
  }

  lemma FromMorePushes(vars: Vars, clock: nat, pushes: set<(Name, nat, string)>, more: set<(Name, nat, string)>)
    requires FromPushes(vars, clock, pushes) && pushes <= more
    ensures FromPushes(vars, clock, more)
  {
  }

  /** A file rewritten with newer contents still publishes what it published. */
  lemma NamePublished(n: Name, create: nat, files: Files, files': Files)
    requires Published(n, create, files) && FilesGrow(files, files')
    ensures Published(n, create, files')
  {
    var f :| f in files && n in files[f].vars && create <= files[f].vars[n].create;
    assert Covers(files'[f].vars, files[f].vars);
    assert f in files' && n in files'[f].vars && create <= files'[f].vars[n].create;
  }

  lemma StillPublished(vars: Vars, files: Files, files': Files)
    requires AllPublished(vars, files) && FilesGrow(files, files')
    ensures AllPublished(vars, files')
  {
    hide Published, FilesGrow;
    forall n | n in vars
      ensures Published(n, vars[n].create, files')
    {
      NamePublished(n, vars[n].create, files, files');
    }
  }

  lemma OwnPublished(vars: Vars, files: Files, i: nat)
    requires i in files && files[i].vars == vars
    ensures AllPublished(vars, files)
  {
    forall n | n in vars
      ensures Published(n, vars[n].create, files)
    {
      assert i in files && n in files[i].vars && vars[n].create <= files[i].vars[n].create;
    }
  }

  lemma WriteFilesGrow(w: World, i: nat, vars: Vars, pushes: set<(Name, nat, string)>)
    requires Inv(w) && i < |w.procs| && Writable(w, i, vars, pushes)
    ensures FilesGrow(w.files, Written(w, i, vars, pushes).files)
  {
    hide Covers, AllPublished, PushesOk, FromPushes;
    var p := w.procs[i];
    var files' := Written(w, i, vars, pushes).files;
    assert ProcOk(p, w);
    forall f | f in w.files
      ensures f in files' && Covers(files'[f].vars, w.files[f].vars)
    {
      CoversSelf(w.files[f].vars);
      if f == i {
        CoversOn(w.files[f].vars, p.vars, files'[f].vars);
      }
    }
  }

  lemma WritePushesOk(w: World, i: nat, vars: Vars, pushes: set<(Name, nat, string)>)
    requires Inv(w) && i < |w.procs| && Writable(w, i, vars, pushes)
    ensures PushesOk(Written(w, i, vars, pushes))
  {
    hide Covers, AllPublished, FromPushes, FilesGrow, ProcsOk, FilesOk;
    var w' := Written(w, i, vars, pushes);
    WriteFilesGrow(w, i, vars, pushes);
    forall p | p in pushes
      ensures Published(p.0, p.1, w'.files)
    {
      if p in w.pushes {
        NamePublished(p.0, p.1, w.files, w'.files);
      } else {
        assert i in w'.files && p.0 in w'.files[i].vars && p.1 <= w'.files[i].vars[p.0].create;
      }
    }
  }

  /** A process that did not write falls behind the rewritten file and stays as it was. */
  lemma OthersBehind(p: Proc, files: Files, i: nat, file: File)
    requires Remembers(p, files) && Behind(p, files) && Knows(p, files)
    requires file.version > (if i in files then files[i].version else 0)
    ensures var files' := files[i := file]; Remembers(p, files') && Behind(p, files') && Knows(p, files')
  {
    hide Covers;
    var files' := files[i := file];
    assert i !in files ==> p.VersionOf(i) == 0;
    forall f | f in files' && p.VersionOf(f) == files'[f].version
      ensures Covers(p.vars, files'[f].vars)
    {
      assert f != i;
    }
  }

  lemma WriterUpToDate(p: Proc, files: Files, i: nat, vars: Vars)
    requires Remembers(p, files) && Behind(p, files) && Knows(p, files) && Covers(vars, p.vars)
    requires i in files ==> p.VersionOf(i) == files[i].version
    ensures var v := p.VersionOf(i) + 1;
            var q, files' := Proc(vars, p.versions[i := v]), files[i := File(v, vars)];
            Remembers(q, files') && Behind(q, files') && Knows(q, files')
  {
    hide Covers;
    var v := p.VersionOf(i) + 1;
    var q, files' := Proc(vars, p.versions[i := v]), files[i := File(v, vars)];
    CoversSelf(vars);
    forall f | f in files' && q.VersionOf(f) == files'[f].version
      ensures Covers(q.vars, files'[f].vars)
    {
      if f != i {
        assert p.VersionOf(f) == files[f].version;
        CoversOn(files[f].vars, p.vars, vars);
      }
    }
  }

  /** The owner of a file remembers its version; a process without a file remembers none for it. */
  lemma OwnVersion(w: World, i: nat)
    requires Inv(w) && i < |w.procs|
    ensures w.procs[i].VersionOf(i) == if i in w.files then w.files[i].version else 0
  {
    assert ProcOk(w.procs[i], w);
  }

  lemma WriteKeepsProc(w: World, i: nat, vars: Vars, pushes: set<(Name, nat, string)>, j: nat)
    requires Inv(w) && i < |w.procs| && j < |w.procs| && Writable(w, i, vars, pushes)
    ensures var w' := Written(w, i, vars, pushes);
            ProcOk(w'.procs[j], w') && Covers(w'.procs[j].vars, w.procs[j].vars)
  {
    hide Covers, AllPublished, FromPushes, Remembers, Behind, Knows, FilesGrow, PushesOk;
    var w' := Written(w, i, vars, pushes);
    WriteFilesGrow(w, i, vars, pushes);
    OwnVersion(w, i);
    assert ProcOk(w.procs[j], w) && ProcOk(w.procs[i], w);
    CoversSelf(w.procs[j].vars);
    if j == i {
      WriterUpToDate(w.procs[i], w.files, i, vars);
      OwnPublished(vars, w'.files, i);
    } else {
      OthersBehind(w.procs[j], w.files, i, w'.files[i]);
      StillPublished(w.procs[j].vars, w.files, w'.files);
      FromMorePushes(w.procs[j].vars, w.clock, w.pushes, w'.pushes);
    }
  }

  lemma WriteKeeps(w: World, i: nat, vars: Vars, pushes: set<(Name, nat, string)>)
    requires Inv(w) && i < |w.procs| && Writable(w, i, vars, pushes)
    ensures var w' := Written(w, i, vars, pushes); Inv(w') && Grows(w, w')
  {
    hide Covers, ProcOk, FilesGrow, FromPushes, PushesOk;
    var w' := Written(w, i, vars, pushes);
    WriteFilesGrow(w, i, vars, pushes);
    WritePushesOk(w, i, vars, pushes);
    forall j | 0 <= j < |w'.procs|
      ensures ProcOk(w'.procs[j], w') && Covers(w'.procs[j].vars, w.procs[j].vars)
    {
      WriteKeepsProc(w, i, vars, pushes, j);
    }
    forall f | f in w'.files
      ensures f < |w'.procs| && 0 < w'.files[f].version == w'.procs[f].VersionOf(f)
      ensures FromPushes(w'.files[f].vars, w'.clock, w'.pushes)
    {
      if f != i {
        FromMorePushes(w.files[f].vars, w.clock, w.pushes, w'.pushes);
      }
    }
  }

  /** A new process knows what the files say, and so at least what the one before it knew. */
  lemma RestartKeeps(w: World, i: nat, order: seq<nat>)
    requires Inv(w) && Enabled(w, Restart(i, order))
    ensures Inv(Do(w, Restart(i, order))) && Grows(w, Do(w, Restart(i, order)))
  {
    hide Reload, ProcOk, Covers, FromPushes, Published;
    var w' := Do(w, Restart(i, order));
    FreshOk(w);
    ReloadKeeps(FRESH, w, order);
    FilesCover(w, w'.procs[i], i);
    RestartFilesOk(w, i, order);
    forall j | 0 <= j < |w'.procs|
      ensures ProcOk(w'.procs[j], w') && Covers(w'.procs[j].vars, w.procs[j].vars)
    {
      SameFiles(w'.procs[j], w, w');
      CoversSelf(w.procs[j].vars);
    }
    FilesGrowSelf(w.files);
  }

  lemma RestartFilesOk(w: World, i: nat, order: seq<nat>)
    requires FilesOk(w) && Enabled(w, Restart(i, order))
    requires forall f | f in w.files :: Reload(FRESH, w.files, order).VersionOf(f) == w.files[f].version
    ensures FilesOk(Do(w, Restart(i, order)))
  {
    hide Reload, FromPushes;
  }

  lemma FreshOk(w: World)
    requires FilesOk(w)
    ensures ProcOk(FRESH, w)
  {
  }

  /** A process that remembers every file's version knows all that any process knows. */
  lemma FilesCover(w: World, p: Proc, i: nat)
    requires Inv(w) && i < |w.procs| && ProcOk(p, w)
    requires forall f | f in w.files :: p.VersionOf(f) == w.files[f].version
    ensures Covers(p.vars, w.procs[i].vars)
  {
    hide Remembers, Behind, FromPushes, FilesOk, PushesOk;
    InvProc(w, i);
    var q := w.procs[i];
    forall n | n in q.vars
      ensures n in p.vars && q.vars[n].create <= p.vars[n].create
    {
      assert Published(n, q.vars[n].create, w.files);
      var f :| f in w.files && n in w.files[f].vars && q.vars[n].create <= w.files[f].vars[n].create;
      assert Covers(p.vars, w.files[f].vars);
    }
  }

  lemma StepKeeps(w: World, s: Step)
    requires Inv(w) && Enabled(w, s)
    ensures Inv(Do(w, s)) && Grows(w, Do(w, s))
  {
    hide Inv, Grows, Do, Written, Writable, FilesOk, Remembers, Behind, Knows, FromPushes, AllPublished;
    match s
    case Tick(now) => TickStep(w, now);
    case Push(i, name, value) =>
      InvProc(w, i);
      PushIsWrite(w, i, name, value);
      PushWritable(w, i, name, value);
      WriteKeeps(w, i, w.procs[i].vars[name := Var(w.clock, value)], w.pushes + {(name, w.clock, value)});
    case ReadFiles(i, order) => ReadKeeps(w, i, order);
    case Save(i) =>
      InvProc(w, i);
      SaveIsWrite(w, i);
      SaveWritable(w, i);
      GrowsSelf(w);
      if w.procs[i].vars != map[] {
        WriteKeeps(w, i, w.procs[i].vars, w.pushes);
      }
    case Restart(i, order) => RestartKeeps(w, i, order);
  }

  lemma TickStep(w: World, now: nat)
    requires Inv(w) && w.clock <= now
    ensures Inv(Do(w, Tick(now))) && Grows(w, Do(w, Tick(now)))
  {
    hide Inv, Grows;
    TickKeeps(w, now);
  }

  lemma GrowsOn(a: World, b: World, c: World)
    requires Grows(a, b) && Grows(b, c)
    ensures Grows(a, c)
  {
    hide Covers;
    forall i | 0 <= i < |a.procs|
      ensures Covers(c.procs[i].vars, a.procs[i].vars)
    {
      CoversOn(a.procs[i].vars, b.procs[i].vars, c.procs[i].vars);
    }
    forall f | f in a.files
      ensures f in c.files && Covers(c.files[f].vars, a.files[f].vars)
    {
      CoversOn(a.files[f].vars, b.files[f].vars, c.files[f].vars);
    }
  }

  lemma GrowsSelf(w: World)
    ensures Grows(w, w)
  {
  }

  lemma {:induction false} RunKeeps(w: World, steps: seq<Step>, end: World)
    requires Inv(w) && Reaches(w, steps, end)
    ensures Inv(end) && Grows(w, end)
    decreases |steps|
  {
    hide Inv, Grows, Do;
    GrowsSelf(w);
    if steps != [] {
      var w1 := Do(w, steps[0]);
      StepKeeps(w, steps[0]);
      RunKeeps(w1, steps[1..], end);
      GrowsOn(w, w1, end);
    }
  }

  lemma StartOk(n: nat)
    ensures Inv(Start(n))
  {
  }

  // ---- Main results: any number of processes, any interleaving ----

  /** In no process does a variable disappear or its create time go back. */
  lemma CreateTimesNeverDecrease(n: nat, steps: seq<Step>, w: World, later: seq<Step>, end: World)
    requires Reaches(Start(n), steps, w) && Reaches(w, later, end)
    ensures |end.procs| == |w.procs|
    ensures forall i, name | 0 <= i < |w.procs| && name in w.procs[i].vars ::
              name in end.procs[i].vars && w.procs[i].vars[name].create <= end.procs[i].vars[name].create
  {
    StartOk(n);
    RunKeeps(Start(n), steps, w);
    RunKeeps(w, later, end);
    forall i, name | 0 <= i < |w.procs| && name in w.procs[i].vars
      ensures name in end.procs[i].vars && w.procs[i].vars[name].create <= end.procs[i].vars[name].create
    {
      assert Covers(end.procs[i].vars, w.procs[i].vars);
    }
  }

  /** Once a push has completed in one process, every read in any process sees that variable at least as new,
      whatever happened in between. */
  lemma ReadSeesPush(n: nat, steps: seq<Step>, w: World, i: nat, name: Name, value: string,
                     later: seq<Step>, w2: World, q: nat, order: seq<nat>)
    requires Reaches(Start(n), steps, w) && i < |w.procs|
    requires Reaches(Do(w, Push(i, name, value)), later, w2)
    requires Enabled(w2, ReadFiles(q, order))
    ensures var vars := Do(w2, ReadFiles(q, order)).procs[q].vars;
            name in vars && w.clock <= vars[name].create
  {
    hide Reload, ProcOk, Inv, Reaches, FilesOk, Remembers, Behind, Knows;
    var w1 := Do(w, Push(i, name, value));
    StartOk(n);
    RunKeeps(Start(n), steps, w);
    StepKeeps(w, Push(i, name, value));
    PushIsWrite(w, i, name, value);
    RunKeeps(w1, later, w2);
    ReloadCovers(w2, q, order, i);
    assert Covers(w2.files[i].vars, w1.files[i].vars);
  }

  /** After a reload a process covers every file. */
  lemma ReloadCovers(w: World, q: nat, order: seq<nat>, f: nat)
    requires Inv(w) && Enabled(w, ReadFiles(q, order))
    ensures f in w.files ==> Covers(Reload(w.procs[q], w.files, order).vars, w.files[f].vars)
    ensures ProcOk(Reload(w.procs[q], w.files, order), w)
  {
    hide Reload, Inv, Remembers, Behind, FromPushes, AllPublished, Covers, FilesOk;
    InvProc(w, q);
    ReloadKeeps(w.procs[q], w, order);
  }

  /** All processes that reload the same files end with the same names and create times. */
  lemma Converge(w: World, q: nat, order: seq<nat>, r: nat, order': seq<nat>)
    requires Inv(w) && Enabled(w, ReadFiles(q, order)) && Enabled(w, ReadFiles(r, order'))
    ensures var a, b := Reload(w.procs[q], w.files, order).vars, Reload(w.procs[r], w.files, order').vars;
            && a.Keys == b.Keys
            && (forall n | n in a :: a[n].create == b[n].create)
  {
    hide Reload, ProcOk;
    var a, b := Reload(w.procs[q], w.files, order), Reload(w.procs[r], w.files, order');
    Bounded(w, q, order, r, order');
    Bounded(w, r, order', q, order);
  }

  lemma InvProc(w: World, q: nat)
    requires Inv(w) && q < |w.procs|
    ensures ProcOk(w.procs[q], w) && FilesOk(w)
  {
  }

  lemma Bounded(w: World, q: nat, order: seq<nat>, r: nat, order': seq<nat>)
    requires Inv(w) && Enabled(w, ReadFiles(q, order)) && Enabled(w, ReadFiles(r, order'))
    ensures Covers(Reload(w.procs[r], w.files, order').vars, Reload(w.procs[q], w.files, order).vars)
  {
    hide Reload, Remembers, Behind, Knows, FromPushes, FilesOk;
    var a, b := Reload(w.procs[q], w.files, order), Reload(w.procs[r], w.files, order');
    InvProc(w, q);
    ReloadKeeps(w.procs[q], w, order);
    forall n | n in a.vars
      ensures n in b.vars && a.vars[n].create <= b.vars[n].create
    {
      assert Published(n, a.vars[n].create, w.files);
      var f :| f in w.files && n in w.files[f].vars && a.vars[n].create <= w.files[f].vars[n].create;
      ReloadCovers(w, r, order', f);
    }
  }

  /** A push of a name that none of its other pushes is later than. */
  ghost predicate Latest(p: (Name, nat, string), pushes: set<(Name, nat, string)>) {
    p in pushes && forall a | a in pushes && a.0 == p.0 :: a.1 <= p.1
  }

  /** The latest pushes of a name give it one value. */
  ghost predicate OneLatest(pushes: set<(Name, nat, string)>) {
    forall a, b | Latest(a, pushes) && Latest(b, pushes) && a.0 == b.0 :: a.2 == b.2
  }

  /** After a reload a process has every name at least as new as any push made it. */
  lemma ReloadIsLatest(w: World, q: nat, order: seq<nat>, p: (Name, nat, string))
    requires Inv(w) && Enabled(w, ReadFiles(q, order))
    ensures var vars := Reload(w.procs[q], w.files, order).vars;
            p in w.pushes ==> p.0 in vars && p.1 <= vars[p.0].create
  {
    hide Reload, ProcOk, FilesOk, ProcsOk;
    if p in w.pushes {
      assert Published(p.0, p.1, w.files);
      var f :| f in w.files && p.0 in w.files[f].vars && p.1 <= w.files[f].vars[p.0].create;
      ReloadCovers(w, q, order, f);
    }
  }

  /** Once pushes stop and each process reloads, all agree on names and create times, and on the values too
      when the latest pushes of each name, should several fall on one time, gave it one value. */
  lemma ProcessesConverge(n: nat, steps: seq<Step>, w: World, q: nat, order: seq<nat>, r: nat, order': seq<nat>)
    requires Reaches(Start(n), steps, w)
    requires Enabled(w, ReadFiles(q, order)) && Enabled(w, ReadFiles(r, order'))
    ensures var a, b := Reload(w.procs[q], w.files, order).vars, Reload(w.procs[r], w.files, order').vars;
            && a.Keys == b.Keys
            && (forall n | n in a :: a[n].create == b[n].create)
            && (OneLatest(w.pushes) ==> a == b)
  {
    hide Reload, Inv, FromPushes;
    StartOk(n);
    RunKeeps(Start(n), steps, w);
    Converge(w, q, order, r, order');
    if OneLatest(w.pushes) {
      SameValues(w, q, order, r, order');
    }
  }

  lemma ReloadedFromPushes(w: World, q: nat, order: seq<nat>)
    requires Inv(w) && Enabled(w, ReadFiles(q, order))
    ensures FromPushes(Reload(w.procs[q], w.files, order).vars, w.clock, w.pushes)
  {
    hide Reload;
    assert ProcOk(w.procs[q], w);
    ReloadKeeps(w.procs[q], w, order);
  }

  /** What a reload ends with comes from a latest push. */
  lemma ValueIsLatest(w: World, q: nat, order: seq<nat>, x: Name)
    requires Inv(w) && Enabled(w, ReadFiles(q, order)) && x in Reload(w.procs[q], w.files, order).vars
    ensures var v := Reload(w.procs[q], w.files, order).vars[x]; Latest((x, v.create, v.value), w.pushes)
  {
    hide Reload, Inv;
    ReloadedFromPushes(w, q, order);
    forall p | p in w.pushes && p.0 == x
      ensures p.1 <= Reload(w.procs[q], w.files, order).vars[x].create
    {
      ReloadIsLatest(w, q, order, p);
    }
  }

  lemma SameValues(w: World, q: nat, order: seq<nat>, r: nat, order': seq<nat>)
    requires Inv(w) && Enabled(w, ReadFiles(q, order)) && Enabled(w, ReadFiles(r, order')) && OneLatest(w.pushes)
    ensures Reload(w.procs[q], w.files, order).vars == Reload(w.procs[r], w.files, order').vars
  {
    hide Reload, Inv, Latest;
    Converge(w, q, order, r, order');
    var a, b := Reload(w.procs[q], w.files, order).vars, Reload(w.procs[r], w.files, order').vars;
    forall x | x in a
      ensures a[x] == b[x]
    {
      ValueIsLatest(w, q, order, x);
      ValueIsLatest(w, r, order', x);
    }
  }

  // ---- Skipping known versions ----

  /** The reload without the version test. */
  function ReloadEverything(vars: Vars, files: Files, order: seq<nat>): Vars
    decreases |order|
  {
    if order == [] then vars
    else ReloadEverything(if order[0] in files then Merge(vars, files[order[0]].vars) else vars, files, order[1..])
  }

  lemma MergeCovered(mine: Vars, theirs: Vars)
    requires Covers(mine, theirs)
    ensures Merge(mine, theirs) == mine
  {
    assert Merge(mine, theirs).Keys == mine.Keys;
  }

  lemma {:induction false} SkipFrom(p: Proc, w: World, order: seq<nat>)
    requires ProcOk(p, w) && FilesOk(w)
    ensures Reload(p, w.files, order).vars == ReloadEverything(p.vars, w.files, order)
    decreases |order|
  {
    hide FromPushes, Published;
    if order != [] {
      var f := order[0];
      ReloadFileKeeps(p, w, f);
      if f in w.files && p.VersionOf(f) == w.files[f].version {
        MergeCovered(p.vars, w.files[f].vars);
      }
      SkipFrom(ReloadFile(p, w.files, f), w, order[1..]);
    }
  }

  /** Skipping a file whose version is known loses nothing: in every reachable world a reload gives what
      reading all files would. */
  lemma SkippingLosesNothing(n: nat, steps: seq<Step>, w: World, q: nat, order: seq<nat>)
    requires Reaches(Start(n), steps, w) && q < |w.procs|
    ensures Reload(w.procs[q], w.files, order).vars == ReloadEverything(w.procs[q].vars, w.files, order)
  {
    StartOk(n);
    RunKeeps(Start(n), steps, w);
    SkipFrom(w.procs[q], w, order);
  }

  // ---- Equal times ----

  /** Two pushes of one name at one time: each process keeps its own value, however often it reloads. */
  lemma EqualTimesDiverge() returns (w: World, steps: seq<Step>)
    ensures Reaches(Start(2), steps, w)
    ensures Enabled(w, ReadFiles(0, [0, 1])) && Enabled(w, ReadFiles(1, [0, 1]))
    ensures var a, b := Reload(w.procs[0], w.files, [0, 1]).vars, Reload(w.procs[1], w.files, [0, 1]).vars;
            "n" in a && "n" in b && a["n"] != b["n"]
  {
    hide Reload;
    var s0, s1 := Push(0, "n", "a"), Push(1, "n", "b");
    steps := [s0, s1];
    var w0 := Start(2);
    var w1 := Do(w0, s0);
    w := Do(w1, s1);
    assert steps[1..] == [s1] && [s1][1..] == [];
    assert Reaches(w, [], w) && Reaches(w1, [s1], w) && Reaches(w0, steps, w);
    var va: Vars := map["n" := Var(0, "a")];
    var vb: Vars := map["n" := Var(0, "b")];
    assert Pushed(FRESH, "n", "a", 0).vars == va && Pushed(FRESH, "n", "b", 0).vars == vb;
    assert "n" in va && "n" in vb;
    assert va != map[] && vb != map[];
    assert w.procs[0] == Proc(va, map[0 := 1]) && w.procs[1] == Proc(vb, map[1 := 1]);
    assert w.files == map[0 := File(1, va), 1 := File(1, vb)];
    ReloadSame(w.files, va, vb);
  }

  /** Each of two processes that know a name with one create time keeps what it has. */
  lemma ReloadSame(files: Files, va: Vars, vb: Vars)
    requires files == map[0 := File(1, va), 1 := File(1, vb)] && Covers(va, vb) && Covers(vb, va)
    ensures Reload(Proc(va, map[0 := 1]), files, [0, 1]).vars == va
    ensures Reload(Proc(vb, map[1 := 1]), files, [0, 1]).vars == vb
  {
    hide Covers, Merge, Reload;
    MergeCovered(va, vb);
    MergeCovered(vb, va);
    ReloadTwo(Proc(va, map[0 := 1]), files);
    ReloadTwo(Proc(vb, map[1 := 1]), files);
  }

  lemma ReloadTwo(p: Proc, files: Files)
    ensures Reload(p, files, [0, 1]) == ReloadFile(ReloadFile(p, files, 0), files, 1)
  {
    assert [0, 1][1..] == [1] && [1][1..] == [];
    var p1 := ReloadFile(p, files, 0);
    assert Reload(p1, files, [1]) == Reload(ReloadFile(p1, files, 1), files, []);
  }
}
