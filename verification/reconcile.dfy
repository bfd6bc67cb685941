/**
  The reconciliation decision of `S3Sync.sync`: given the local snapshot
  (relative path -> mtime, in enumeration order) and the stored metadata
  (relative path -> {mtime, synced_at}, in its dict order), decide which paths to
  upload and which to download, and compute the metadata to save.

  `Decide` follows the code: a first pass over the local files that compares
  mtimes and rewrites entries of uploaded paths, then a second pass over the
  updated metadata that downloads every path with no local file. The reference
  it is proved against is per path: `VerdictOf` is the case table, `Schedule`
  the visiting order, `Expand` lays the verdicts out along the schedule.
 */
module Reconcile {
  import opened PyDict
  import Naming

  /** One metadata record: the mtime last reconciled and when (`synced_at`). */
  datatype Entry = Entry(mtime: int, syncedAt: int)

  datatype Kind = Upload | Download

  /** A transfer of `path`, addressed in the bucket by `key`. */
  datatype Action = Action(kind: Kind, path: Path, key: string)

  /** The transfers in the order they are issued, and the metadata to save. */
  datatype Plan = Plan(actions: seq<Action>, meta: Dict<Entry>)

  // ---------------------------------------------------------------------------
  // The decision as the code makes it

  /** One iteration of the loop over local files. */
  function LocalStep(p: Path, mtime: int, meta: Dict<Entry>, prefix: string, now: int): Plan {
    var key := Naming.RemoteKey(prefix, p);
    if p in meta.entries then
      if mtime > meta.entries[p].mtime then Plan([Action(Upload, p, key)], meta.Put(p, Entry(mtime, now)))
      else if mtime < meta.entries[p].mtime then Plan([Action(Download, p, key)], meta)
      else Plan([], meta)
    else Plan([Action(Upload, p, key)], meta.Put(p, Entry(mtime, now)))
  }

  /** The loop over local files, threading the metadata dict through. */
  function LocalPass(order: seq<Path>, local: map<Path, int>, meta: Dict<Entry>, prefix: string, now: int): Plan
    requires forall p :: p in order ==> p in local
    decreases |order|
  {
    if order == [] then Plan([], meta)
    else
      var s := LocalStep(order[0], local[order[0]], meta, prefix, now);
      var rest := LocalPass(order[1..], local, s.meta, prefix, now);
      Plan(s.actions + rest.actions, rest.meta)
  }

  /** The loop over the metadata keys: download every path with no local file. */
  function RemotePass(order: seq<Path>, local: map<Path, int>, prefix: string): seq<Action>
    decreases |order|
  {
    if order == [] then []
    else
      (if order[0] !in local then [Action(Download, order[0], Naming.RemoteKey(prefix, order[0]))] else [])
      + RemotePass(order[1..], local, prefix)
  }

  // ---------------------------------------------------------------------------
  // The per-path reference

  /** The elements of `s` not in `ex`, in order. */
  function Without(s: seq<Path>, ex: set<Path>): (r: seq<Path>)
    ensures forall p :: p in r <==> p in s && p !in ex
    ensures NoDup(s) ==> NoDup(r)
  {
    if s == [] then []
    else (if s[0] in ex then [] else [s[0]]) + Without(s[1..], ex)
  }

  /** The case table: which transfer, if any, a path in the union gets. */
  function VerdictOf(p: Path, local: map<Path, int>, meta: map<Path, Entry>): Option<Kind> {
    if p in local && p in meta then
      if local[p] > meta[p].mtime then Some(Upload)
      else if local[p] < meta[p].mtime then Some(Download)
      else None
    else if p in local then Some(Upload)
    else Some(Download)
  }

  /** The entry a path of the union ends up with: uploads record the local mtime,
      everything else keeps the stored entry. */
  function NewEntry(p: Path, local: map<Path, int>, meta: map<Path, Entry>, now: int): Entry
    requires p in local || p in meta
  {
    if VerdictOf(p, local, meta) == Some(Upload) then Entry(local[p], now) else meta[p]
  }

  /** The visiting order: local paths in enumeration order, then metadata-only
      paths in metadata order. */
  function Schedule(local: Dict<int>, meta: Dict<Entry>): seq<Path> {
    local.order + Without(meta.order, local.entries.Keys)
  }

  /** The transfers `Expand` gives one path. */
  function Head(p: Path, local: map<Path, int>, meta: map<Path, Entry>, prefix: string): seq<Action> {
    match VerdictOf(p, local, meta)
    case None => []
    case Some(k) => [Action(k, p, Naming.RemoteKey(prefix, p))]
  }

  /** The transfers a sequence of paths gives rise to, one per path whose verdict is
      not Skip, in the order of the paths. */
  function Expand(paths: seq<Path>, local: map<Path, int>, meta: map<Path, Entry>, prefix: string): seq<Action>
    decreases |paths|
  {
    if paths == [] then []
    else
      Head(paths[0], local, meta, prefix) + Expand(paths[1..], local, meta, prefix)
  }

  // ---------------------------------------------------------------------------
  // The decision, and that it matches the reference

  /** The two loops of `sync` as written: local files first, then the keys of the
      updated metadata. */
  function TwoPasses(local: Dict<int>, meta: Dict<Entry>, prefix: string, now: int): Plan
    requires local.Valid()
  {
    var l := LocalPass(local.order, local.entries, meta, prefix, now);
    Plan(l.actions + RemotePass(l.meta.order, local.entries, prefix), l.meta)
  }

  /** The decision of one sync pass: the transfers are the verdicts of the paths laid
      out along the schedule, no entry is dropped, new paths are appended in
      enumeration order, and every entry is the path's `NewEntry`. */
  function Decide(local: Dict<int>, meta: Dict<Entry>, prefix: string, now: int): (plan: Plan)
    requires local.Valid() && meta.Valid()
    ensures plan.meta.Valid()
    ensures plan.actions == Expand(Schedule(local, meta), local.entries, meta.entries, prefix)
    ensures plan.meta.entries.Keys == meta.entries.Keys + local.entries.Keys
    ensures plan.meta.order == meta.order + Without(local.order, meta.entries.Keys)
    ensures forall p :: p in plan.meta.entries ==>
      plan.meta.entries[p] == NewEntry(p, local.entries, meta.entries, now)
  {
    TwoPassesActions(local, meta, prefix, now);
    TwoPassesMeta(local, meta, prefix, now);
    TwoPasses(local, meta, prefix, now)
  }

  lemma TwoPassesActions(local: Dict<int>, meta: Dict<Entry>, prefix: string, now: int)
    requires local.Valid() && meta.Valid()
    ensures TwoPasses(local, meta, prefix, now).actions == Expand(Schedule(local, meta), local.entries, meta.entries, prefix)
  {
    var l := LocalPass(local.order, local.entries, meta, prefix, now);
    var metaOnly := Without(meta.order, local.entries.Keys);
    var remote := RemotePass(l.meta.order, local.entries, prefix);
    assert TwoPasses(local, meta, prefix, now).actions == l.actions + remote;
    LocalPassActions(local.order, local.entries, meta, prefix, now);
    RemotePassAfterLocal(local, meta, prefix, now);
    ExpandAppend(local.order, metaOnly, local.entries, meta.entries, prefix);
  }

  /** The second loop only downloads the loaded paths that are not local. */
  lemma RemotePassAfterLocal(local: Dict<int>, meta: Dict<Entry>, prefix: string, now: int)
    requires local.Valid() && meta.Valid()
    ensures RemotePass(LocalPass(local.order, local.entries, meta, prefix, now).meta.order, local.entries, prefix)
         == Expand(Without(meta.order, local.entries.Keys), local.entries, meta.entries, prefix)
  {
    var l := LocalPass(local.order, local.entries, meta, prefix, now);
    LocalPassOrder(local.order, local.entries, meta, prefix, now);
    var added := Without(local.order, meta.entries.Keys);
    var metaOnly := Without(meta.order, local.entries.Keys);
    calc {
      RemotePass(l.meta.order, local.entries, prefix);
      { RemotePassAppend(meta.order, added, local.entries, prefix); }
      RemotePass(meta.order, local.entries, prefix) + RemotePass(added, local.entries, prefix);
      { RemotePassOfLocal(added, local.entries, prefix); }
      RemotePass(meta.order, local.entries, prefix) + [];
      { RemotePassIsExpand(meta.order, local.entries, meta.entries, prefix); }
      Expand(metaOnly, local.entries, meta.entries, prefix) + [];
    }
  }

  lemma TwoPassesMeta(local: Dict<int>, meta: Dict<Entry>, prefix: string, now: int)
    requires local.Valid() && meta.Valid()
    ensures TwoPasses(local, meta, prefix, now).meta.Valid()
    ensures TwoPasses(local, meta, prefix, now).meta.entries.Keys == meta.entries.Keys + local.entries.Keys
    ensures TwoPasses(local, meta, prefix, now).meta.order == meta.order + Without(local.order, meta.entries.Keys)
    ensures forall p :: p in TwoPasses(local, meta, prefix, now).meta.entries ==>
      TwoPasses(local, meta, prefix, now).meta.entries[p] == NewEntry(p, local.entries, meta.entries, now)
  {
    var l := LocalPass(local.order, local.entries, meta, prefix, now);
    assert TwoPasses(local, meta, prefix, now).meta == l.meta;
    LocalPassShape(local, meta, prefix, now);
    LocalPassNewEntries(local, meta, prefix, now);
  }

  /** After the first loop the dict is well formed, holds the loaded and the local
      paths, and lists the new ones after the loaded ones. */
  lemma LocalPassShape(local: Dict<int>, meta: Dict<Entry>, prefix: string, now: int)
    requires local.Valid() && meta.Valid()
    ensures var m := LocalPass(local.order, local.entries, meta, prefix, now).meta;
      && m.Valid()
      && m.entries.Keys == meta.entries.Keys + local.entries.Keys
      && m.order == meta.order + Without(local.order, meta.entries.Keys)
  {
    var l := LocalPass(local.order, local.entries, meta, prefix, now);
    LocalPassOrder(local.order, local.entries, meta, prefix, now);
    LocalPassKeys(local.order, local.entries, meta, prefix, now);
    var added := Without(local.order, meta.entries.Keys);
    AddedPaths(local, meta.entries.Keys);
    AppendKeepsValid(meta, l.meta, added);
  }

  /** The local paths a dict does not hold yet, as a set. */
  lemma AddedPaths(local: Dict<int>, ex: set<Path>)
    requires local.Valid()
    ensures (set p | p in local.order) == local.entries.Keys
    ensures (set p | p in Without(local.order, ex)) == local.entries.Keys - ex
  {
  }

  /** After the first loop every entry is the path's `NewEntry`. */
  lemma LocalPassNewEntries(local: Dict<int>, meta: Dict<Entry>, prefix: string, now: int)
    requires local.Valid() && meta.Valid()
    ensures var m := LocalPass(local.order, local.entries, meta, prefix, now).meta;
      && m.entries.Keys == meta.entries.Keys + local.entries.Keys
      && forall p :: p in m.entries ==> m.entries[p] == NewEntry(p, local.entries, meta.entries, now)
  {
    var l := LocalPass(local.order, local.entries, meta, prefix, now);
    LocalPassKeys(local.order, local.entries, meta, prefix, now);
    assert (set p | p in local.order) == local.entries.Keys;
    LocalPassEntries(local.order, local.entries, meta, prefix, now);
    forall p | p in l.meta.entries
      ensures l.meta.entries[p] == NewEntry(p, local.entries, meta.entries, now)
    {
      if p !in local.order {
        assert Get(l.meta.entries, p) == Get(meta.entries, p);
      } else {
        assert Get(l.meta.entries, p) == Some(NewEntry(p, local.entries, meta.entries, now));
      }
    }
  }

  /** The head of a duplicate-free sequence is not in its tail, which is duplicate-free. */
  lemma NoDupTail(s: seq<Path>)
    requires NoDup(s) && s != []
    ensures NoDup(s[1..]) && s[0] !in s[1..]
  {
  }

  /** The verdict and the new entry of a path depend only on that path's records. */
  lemma SameAt(p: Path, local: map<Path, int>, m1: map<Path, Entry>, m2: map<Path, Entry>, now: int)
    requires Get(m1, p) == Get(m2, p)
    ensures VerdictOf(p, local, m1) == VerdictOf(p, local, m2)
    ensures p in local || p in m1 ==> NewEntry(p, local, m1, now) == NewEntry(p, local, m2, now)
  {
  }

  lemma {:induction false} ExpandCongruent(s: seq<Path>, local: map<Path, int>, m1: map<Path, Entry>, m2: map<Path, Entry>, prefix: string)
    requires forall p :: p in s ==> Get(m1, p) == Get(m2, p)
    ensures Expand(s, local, m1, prefix) == Expand(s, local, m2, prefix)
    decreases |s|
  {
    if s != [] {
      SameAt(s[0], local, m1, m2, 0);
      ExpandCongruent(s[1..], local, m1, m2, prefix);
    }
  }

  /** The first loop issues, in enumeration order, the verdict of each local path
      against the metadata as loaded. */
  lemma {:induction false} LocalPassActions(order: seq<Path>, local: map<Path, int>, meta: Dict<Entry>, prefix: string, now: int)
    requires NoDup(order)
    requires forall p :: p in order ==> p in local
    ensures LocalPass(order, local, meta, prefix, now).actions == Expand(order, local, meta.entries, prefix)
    decreases |order|
  {
    if order != [] {
      var p, rest := order[0], order[1..];
      NoDupTail(order);
      var s := LocalStep(p, local[p], meta, prefix, now);
      LocalPassActions(rest, local, s.meta, prefix, now);
      ExpandCongruent(rest, local, s.meta.entries, meta.entries, prefix);
    }
  }

  /** The first loop appends the new paths to the dict in enumeration order. */
  lemma {:induction false} LocalPassOrder(order: seq<Path>, local: map<Path, int>, meta: Dict<Entry>, prefix: string, now: int)
    requires NoDup(order)
    requires forall p :: p in order ==> p in local
    ensures LocalPass(order, local, meta, prefix, now).meta.order == meta.order + Without(order, meta.entries.Keys)
    decreases |order|
  {
    if order != [] {
      var p, rest := order[0], order[1..];
      NoDupTail(order);
      var s := LocalStep(p, local[p], meta, prefix, now);
      var head: seq<Path> := if p in meta.entries then [] else [p];
      assert s.meta.order == meta.order + head;
      LocalPassOrder(rest, local, s.meta, prefix, now);
      var r := LocalPass(rest, local, s.meta, prefix, now).meta;
      assert LocalPass(order, local, meta, prefix, now).meta == r;
      WithoutCongruent(rest, s.meta.entries.Keys, meta.entries.Keys);
      assert Without(order, meta.entries.Keys) == head + Without(rest, meta.entries.Keys);
      calc {
        r.order;
        s.meta.order + Without(rest, s.meta.entries.Keys);
        (meta.order + head) + Without(rest, meta.entries.Keys);
        { Assoc(meta.order, head, Without(rest, meta.entries.Keys)); }
        meta.order + (head + Without(rest, meta.entries.Keys));
      }
    }
  }

  /** After the first loop the keys are the loaded ones plus the local paths. */
  lemma {:induction false} LocalPassKeys(order: seq<Path>, local: map<Path, int>, meta: Dict<Entry>, prefix: string, now: int)
    requires forall p :: p in order ==> p in local
    ensures LocalPass(order, local, meta, prefix, now).meta.entries.Keys == meta.entries.Keys + set p | p in order
    decreases |order|
  {
    if order != [] {
      var p, rest := order[0], order[1..];
      var s := LocalStep(p, local[p], meta, prefix, now);
      assert s.meta.entries.Keys == meta.entries.Keys + {p};
      LocalPassKeys(rest, local, s.meta, prefix, now);
      assert LocalPass(order, local, meta, prefix, now).meta == LocalPass(rest, local, s.meta, prefix, now).meta;
      assert (set q | q in order) == {p} + set q | q in rest;
    }
  }

  /** After the first loop each local path holds its `NewEntry` and every other
      path is as it was. */
  lemma {:induction false} LocalPassEntries(order: seq<Path>, local: map<Path, int>, meta: Dict<Entry>, prefix: string, now: int)
    requires NoDup(order)
    requires forall p :: p in order ==> p in local
    ensures forall p :: p !in order ==>
      Get(LocalPass(order, local, meta, prefix, now).meta.entries, p) == Get(meta.entries, p)
    ensures forall p :: p in order ==>
      Get(LocalPass(order, local, meta, prefix, now).meta.entries, p) == Some(NewEntry(p, local, meta.entries, now))
    decreases |order|
  {
    if order != [] {
      var p, rest := order[0], order[1..];
      NoDupTail(order);
      var s := LocalStep(p, local[p], meta, prefix, now);
      LocalPassEntries(rest, local, s.meta, prefix, now);
      var r := LocalPass(rest, local, s.meta, prefix, now).meta;
      assert LocalPass(order, local, meta, prefix, now).meta == r;
      assert Get(s.meta.entries, p) == Some(NewEntry(p, local, meta.entries, now));
      forall q | q in rest
        ensures Get(r.entries, q) == Some(NewEntry(q, local, meta.entries, now))
      {
        SameAt(q, local, s.meta.entries, meta.entries, now);
      }
    }
  }

  /** Appending keys that are new keeps a dict well formed. */
  lemma AppendKeepsValid<V>(d: Dict<V>, e: Dict<V>, added: seq<Path>)
    requires d.Valid() && NoDup(added)
    requires forall p :: p in added ==> p !in d.entries
    requires e.order == d.order + added
    requires e.entries.Keys == d.entries.Keys + set p | p in added
    ensures e.Valid()
  {
    forall i, j | 0 <= i < j < |e.order|
      ensures e.order[i] != e.order[j]
    {
      if j >= |d.order| && i < |d.order| {
        assert e.order[j] in added;
      }
      if i >= |d.order| {
        assert e.order[i] == added[i - |d.order|] && e.order[j] == added[j - |d.order|];
      }
    }
  }

  /** `Without` only looks at membership of the sequence's own elements. */
  lemma {:induction false} WithoutCongruent(s: seq<Path>, a: set<Path>, b: set<Path>)
    requires forall p :: p in s ==> (p in a <==> p in b)
    ensures Without(s, a) == Without(s, b)
    decreases |s|
  {
    if s != [] {
      WithoutCongruent(s[1..], a, b);
    }
  }

  lemma {:induction false} RemotePassAppend(a: seq<Path>, b: seq<Path>, local: map<Path, int>, prefix: string)
    ensures RemotePass(a + b, local, prefix) == RemotePass(a, local, prefix) + RemotePass(b, local, prefix)
    decreases |a|
  {
    if a != [] {
      assert (a + b)[0] == a[0];
      assert (a + b)[1..] == a[1..] + b;
      RemotePassAppend(a[1..], b, local, prefix);
    } else {
      assert a + b == b;
    }
  }

  lemma {:induction false} RemotePassOfLocal(s: seq<Path>, local: map<Path, int>, prefix: string)
    requires forall p :: p in s ==> p in local
    ensures RemotePass(s, local, prefix) == []
    decreases |s|
  {
    if s != [] {
      RemotePassOfLocal(s[1..], local, prefix);
    }
  }

  lemma {:induction false} RemotePassIsExpand(s: seq<Path>, local: map<Path, int>, meta: map<Path, Entry>, prefix: string)
    requires forall p :: p in s ==> p in meta
    ensures RemotePass(s, local, prefix) == Expand(Without(s, local.Keys), local, meta, prefix)
    decreases |s|
  {
    if s != [] {
      RemotePassIsExpand(s[1..], local, meta, prefix);
      var w := Without(s[1..], local.Keys);
      if s[0] !in local {
        assert Without(s, local.Keys) == [s[0]] + w;
        assert VerdictOf(s[0], local, meta) == Some(Download);
        ExpandAppend([s[0]], w, local, meta, prefix);
      } else {
        assert Without(s, local.Keys) == w;
      }
    }
  }

  lemma {:induction false} ExpandAppend(a: seq<Path>, b: seq<Path>, local: map<Path, int>, meta: map<Path, Entry>, prefix: string)
    ensures Expand(a + b, local, meta, prefix) == Expand(a, local, meta, prefix) + Expand(b, local, meta, prefix)
    decreases |a|
  {
    if a != [] {
      assert (a + b)[0] == a[0];
      assert (a + b)[1..] == a[1..] + b;
      ExpandAppend(a[1..], b, local, meta, prefix);
    } else {
      assert a + b == b;
    }
  }

  // ---------------------------------------------------------------------------
  // Facts about the reference

  /** `p` comes strictly before `q` in `s`. */
  ghost predicate Precedes(s: seq<Path>, p: Path, q: Path) {
    exists i, j :: 0 <= i < j < |s| && s[i] == p && s[j] == q
  }

  /** An action is issued for a path of the sequence exactly when that path's
      verdict is a transfer, and it carries that verdict and the path's key. */
  lemma {:induction false} ExpandMember(paths: seq<Path>, local: map<Path, int>, meta: map<Path, Entry>, prefix: string, a: Action)
    ensures a in Expand(paths, local, meta, prefix) <==>
      a.path in paths && VerdictOf(a.path, local, meta) == Some(a.kind) && a.key == Naming.RemoteKey(prefix, a.path)
    decreases |paths|
  {
    if paths != [] {
      ExpandMember(paths[1..], local, meta, prefix, a);
      assert paths == [paths[0]] + paths[1..];
    }
  }

  /** Actions appear in the order of their paths. */
  lemma {:induction false} ExpandOrdered(paths: seq<Path>, local: map<Path, int>, meta: map<Path, Entry>, prefix: string)
    ensures var acts := Expand(paths, local, meta, prefix);
      forall i, j :: 0 <= i < j < |acts| ==> Precedes(paths, acts[i].path, acts[j].path)
    decreases |paths|
  {
    if paths != [] {
      var p, rest := paths[0], paths[1..];
      ExpandOrdered(rest, local, meta, prefix);
      var tail := Expand(rest, local, meta, prefix);
      var acts := Expand(paths, local, meta, prefix);
      var hd := Head(p, local, meta, prefix);
      assert acts == hd + tail;
      var h := |hd|;
      forall i, j | 0 <= i < j < |acts|
        ensures Precedes(paths, acts[i].path, acts[j].path)
      {
        assert acts[j] == tail[j - h];
        ExpandMember(rest, local, meta, prefix, tail[j - h]);
        if i < h {
          assert acts[i].path == p;
          PrecedesFromHead(paths, tail[j - h].path);
        } else {
          assert acts[i] == tail[i - h];
          PrecedesInTail(paths, tail[i - h].path, tail[j - h].path);
        }
      }
    }
  }

  lemma PrecedesFromHead(s: seq<Path>, q: Path)
    requires s != [] && q in s[1..]
    ensures Precedes(s, s[0], q)
  {
    var m :| 0 <= m < |s[1..]| && s[1..][m] == q;
    assert s[m + 1] == q;
  }

  lemma PrecedesInTail(s: seq<Path>, p: Path, q: Path)
    requires s != [] && Precedes(s[1..], p, q)
    ensures Precedes(s, p, q)
  {
    var x, y :| 0 <= x < y < |s[1..]| && s[1..][x] == p && s[1..][y] == q;
    assert s[x + 1] == p && s[y + 1] == q;
  }

  lemma PrecedesDistinct(s: seq<Path>, p: Path, q: Path)
    requires NoDup(s) && Precedes(s, p, q)
    ensures p != q
  {
  }

  /** The schedule visits every path of the union exactly once. */
  lemma ScheduleCovers(local: Dict<int>, meta: Dict<Entry>)
    requires local.Valid() && meta.Valid()
    ensures NoDup(Schedule(local, meta))
    ensures forall p :: p in Schedule(local, meta) <==> p in local.entries || p in meta.entries
  {
    var w := Without(meta.order, local.entries.Keys);
    var s := Schedule(local, meta);
    forall i, j | 0 <= i < j < |s|
      ensures s[i] != s[j]
    {
      if i < |local.order| <= j {
        assert s[j] == w[j - |local.order|];
        assert s[j] in w;
      } else if |local.order| <= i {
        assert s[i] == w[i - |local.order|] && s[j] == w[j - |local.order|];
      }
    }
  }

  // ---------------------------------------------------------------------------
  // Properties of the decision

  /** Every transfer is the verdict of its own path, a path of the union, under the
      key formed from the prefix; every path whose verdict is a transfer gets it. */
  lemma DecideFollowsVerdicts(local: Dict<int>, meta: Dict<Entry>, prefix: string, now: int, a: Action)
    requires local.Valid() && meta.Valid()
    ensures a in Decide(local, meta, prefix, now).actions <==>
      && (a.path in local.entries || a.path in meta.entries)
      && VerdictOf(a.path, local.entries, meta.entries) == Some(a.kind)
      && a.key == Naming.RemoteKey(prefix, a.path)
  {
    ScheduleCovers(local, meta);
    ExpandMember(Schedule(local, meta), local.entries, meta.entries, prefix, a);
  }

  /** Transfers are issued in schedule order. */
  lemma DecideFollowsSchedule(local: Dict<int>, meta: Dict<Entry>, prefix: string, now: int)
    requires local.Valid() && meta.Valid()
    ensures var acts := Decide(local, meta, prefix, now).actions;
      forall i, j :: 0 <= i < j < |acts| ==> Precedes(Schedule(local, meta), acts[i].path, acts[j].path)
  {
    var acts := Decide(local, meta, prefix, now).actions;
    ExpandOrdered(Schedule(local, meta), local.entries, meta.entries, prefix);
    assert acts == Expand(Schedule(local, meta), local.entries, meta.entries, prefix);
  }

  /** Each path gets at most one transfer: a path uploaded by the first loop is
      never downloaded by the second. */
  lemma AtMostOneTransferPerPath(local: Dict<int>, meta: Dict<Entry>, prefix: string, now: int)
    requires local.Valid() && meta.Valid()
    ensures var acts := Decide(local, meta, prefix, now).actions;
      forall i, j :: 0 <= i < |acts| && 0 <= j < |acts| && acts[i].path == acts[j].path ==> i == j
  {
    var s := Schedule(local, meta);
    var acts := Decide(local, meta, prefix, now).actions;
    ScheduleCovers(local, meta);
    DecideFollowsSchedule(local, meta, prefix, now);
    forall i, j | 0 <= i < |acts| && 0 <= j < |acts| && acts[i].path == acts[j].path
      ensures i == j
    {
      if i < j {
        PrecedesDistinct(s, acts[i].path, acts[j].path);
      } else if j < i {
        PrecedesDistinct(s, acts[j].path, acts[i].path);
      }
    }
  }

  /** Every transfer of a local path precedes every transfer of a path with no
      local file, and the latter are all downloads. */
  lemma LocalTransfersFirst(local: Dict<int>, meta: Dict<Entry>, prefix: string, now: int)
    requires local.Valid() && meta.Valid()
    ensures var acts := Decide(local, meta, prefix, now).actions;
      forall i, j :: 0 <= i < j < |acts| && acts[j].path in local.entries ==> acts[i].path in local.entries
    ensures var acts := Decide(local, meta, prefix, now).actions;
      forall i :: 0 <= i < |acts| && acts[i].path !in local.entries ==> acts[i].kind == Download
  {
    var s := Schedule(local, meta);
    var acts := Decide(local, meta, prefix, now).actions;
    var n := |local.order|;
    DecideFollowsSchedule(local, meta, prefix, now);
    forall i, j | 0 <= i < j < |acts| && acts[j].path in local.entries
      ensures acts[i].path in local.entries
    {
      var x, y :| 0 <= x < y < |s| && s[x] == acts[i].path && s[y] == acts[j].path;
      assert s[x] == local.order[x];
    }
    forall i | 0 <= i < |acts| && acts[i].path !in local.entries
      ensures acts[i].kind == Download
    {
      DecideFollowsVerdicts(local, meta, prefix, now, acts[i]);
    }
  }

  /** Local newer than recorded: uploaded, and the entry takes the local mtime. */
  lemma NewerLocalIsUploaded(local: Dict<int>, meta: Dict<Entry>, prefix: string, now: int, p: Path)
    requires local.Valid() && meta.Valid()
    requires p in local.entries && p in meta.entries && local.entries[p] > meta.entries[p].mtime
    ensures Action(Upload, p, Naming.RemoteKey(prefix, p)) in Decide(local, meta, prefix, now).actions
    ensures forall a :: a in Decide(local, meta, prefix, now).actions && a.path == p ==> a.kind == Upload
    ensures Decide(local, meta, prefix, now).meta.entries[p] == Entry(local.entries[p], now)
  {
    DecideFollowsVerdicts(local, meta, prefix, now, Action(Upload, p, Naming.RemoteKey(prefix, p)));
    forall a | a in Decide(local, meta, prefix, now).actions && a.path == p
      ensures a.kind == Upload
    {
      DecideFollowsVerdicts(local, meta, prefix, now, a);
    }
  }

  /** Local older than recorded: downloaded, and the entry is left as it was. */
  lemma OlderLocalIsDownloaded(local: Dict<int>, meta: Dict<Entry>, prefix: string, now: int, p: Path)
    requires local.Valid() && meta.Valid()
    requires p in local.entries && p in meta.entries && local.entries[p] < meta.entries[p].mtime
    ensures Action(Download, p, Naming.RemoteKey(prefix, p)) in Decide(local, meta, prefix, now).actions
    ensures forall a :: a in Decide(local, meta, prefix, now).actions && a.path == p ==> a.kind == Download
    ensures Decide(local, meta, prefix, now).meta.entries[p] == meta.entries[p]
  {
    DecideFollowsVerdicts(local, meta, prefix, now, Action(Download, p, Naming.RemoteKey(prefix, p)));
    forall a | a in Decide(local, meta, prefix, now).actions && a.path == p
      ensures a.kind == Download
    {
      DecideFollowsVerdicts(local, meta, prefix, now, a);
    }
  }

  /** Equal mtimes: no transfer at all, and the entry is left as it was. */
  lemma EqualMtimeIsSkipped(local: Dict<int>, meta: Dict<Entry>, prefix: string, now: int, p: Path)
    requires local.Valid() && meta.Valid()
    requires p in local.entries && p in meta.entries && local.entries[p] == meta.entries[p].mtime
    ensures forall a :: a in Decide(local, meta, prefix, now).actions ==> a.path != p
    ensures Decide(local, meta, prefix, now).meta.entries[p] == meta.entries[p]
  {
    forall a | a in Decide(local, meta, prefix, now).actions
      ensures a.path != p
    {
      DecideFollowsVerdicts(local, meta, prefix, now, a);
    }
  }

  /** A local file with no entry is uploaded whatever its mtime, and gets an entry. */
  lemma LocalOnlyIsUploaded(local: Dict<int>, meta: Dict<Entry>, prefix: string, now: int, p: Path)
    requires local.Valid() && meta.Valid()
    requires p in local.entries && p !in meta.entries
    ensures Action(Upload, p, Naming.RemoteKey(prefix, p)) in Decide(local, meta, prefix, now).actions
    ensures forall a :: a in Decide(local, meta, prefix, now).actions && a.path == p ==> a.kind == Upload
    ensures p in Decide(local, meta, prefix, now).meta.entries
    ensures Decide(local, meta, prefix, now).meta.entries[p] == Entry(local.entries[p], now)
  {
    DecideFollowsVerdicts(local, meta, prefix, now, Action(Upload, p, Naming.RemoteKey(prefix, p)));
    forall a | a in Decide(local, meta, prefix, now).actions && a.path == p
      ensures a.kind == Upload
    {
      DecideFollowsVerdicts(local, meta, prefix, now, a);
    }
  }

  /** An entry with no local file is downloaded whatever its mtime, and kept. */
  lemma MetaOnlyIsDownloaded(local: Dict<int>, meta: Dict<Entry>, prefix: string, now: int, p: Path)
    requires local.Valid() && meta.Valid()
    requires p !in local.entries && p in meta.entries
    ensures Action(Download, p, Naming.RemoteKey(prefix, p)) in Decide(local, meta, prefix, now).actions
    ensures forall a :: a in Decide(local, meta, prefix, now).actions && a.path == p ==> a.kind == Download
    ensures Decide(local, meta, prefix, now).meta.entries[p] == meta.entries[p]
  {
    DecideFollowsVerdicts(local, meta, prefix, now, Action(Download, p, Naming.RemoteKey(prefix, p)));
    forall a | a in Decide(local, meta, prefix, now).actions && a.path == p
      ensures a.kind == Download
    {
      DecideFollowsVerdicts(local, meta, prefix, now, a);
    }
  }

  // ---------------------------------------------------------------------------
  // Replaying a pass

  /** The downloads among `acts`, in order. */
  function Downloads(acts: seq<Action>): (r: seq<Action>)
    ensures forall a :: a in r <==> a in acts && a.kind == Download
  {
    if acts == [] then []
    else (if acts[0].kind == Download then [acts[0]] else []) + Downloads(acts[1..])
  }

  lemma {:induction false} WithoutAppend(a: seq<Path>, b: seq<Path>, ex: set<Path>)
    ensures Without(a + b, ex) == Without(a, ex) + Without(b, ex)
    decreases |a|
  {
    if a != [] {
      var h: seq<Path> := if a[0] in ex then [] else [a[0]];
      assert (a + b)[0] == a[0];
      assert (a + b)[1..] == a[1..] + b;
      WithoutAppend(a[1..], b, ex);
      calc {
        Without(a + b, ex);
        h + Without(a[1..] + b, ex);
        h + (Without(a[1..], ex) + Without(b, ex));
        { Assoc(h, Without(a[1..], ex), Without(b, ex)); }
        (h + Without(a[1..], ex)) + Without(b, ex);
      }
    } else {
      assert a + b == b;
    }
  }

  lemma WithoutAll(s: seq<Path>, ex: set<Path>)
    requires forall p :: p in s ==> p in ex
    ensures Without(s, ex) == []
  {
    if Without(s, ex) != [] {
      assert Without(s, ex)[0] in Without(s, ex);
    }
  }

  /** Against the entry a pass wrote, a path's verdict is a download if it was one
      before, and otherwise nothing. */
  lemma VerdictAfterPass(p: Path, local: map<Path, int>, meta0: map<Path, Entry>, meta1: map<Path, Entry>, now: int)
    requires p in local || p in meta0
    requires p in meta1 && meta1[p] == NewEntry(p, local, meta0, now)
    ensures VerdictOf(p, local, meta1) ==
      (if VerdictOf(p, local, meta0) == Some(Download) then Some(Download) else None)
  {
  }

  lemma {:induction false} DownloadsAppend(a: seq<Action>, b: seq<Action>)
    ensures Downloads(a + b) == Downloads(a) + Downloads(b)
    decreases |a|
  {
    if a != [] {
      assert (a + b)[0] == a[0];
      assert (a + b)[1..] == a[1..] + b;
      DownloadsAppend(a[1..], b);
    } else {
      assert a + b == b;
    }
  }

  lemma {:induction false} ExpandAfterPass(paths: seq<Path>, local: map<Path, int>, meta0: map<Path, Entry>,
                                           meta1: map<Path, Entry>, prefix: string, now: int)
    requires forall p :: p in paths ==> p in local || p in meta0
    requires forall p :: p in paths ==> p in meta1 && meta1[p] == NewEntry(p, local, meta0, now)
    ensures Expand(paths, local, meta1, prefix) == Downloads(Expand(paths, local, meta0, prefix))
    decreases |paths|
  {
    if paths != [] {
      var p, rest := paths[0], paths[1..];
      VerdictAfterPass(p, local, meta0, meta1, now);
      ExpandAfterPass(rest, local, meta0, meta1, prefix, now);
      var h0, h1 := Head(p, local, meta0, prefix), Head(p, local, meta1, prefix);
      assert Downloads(h0) == h1;
      assert Expand(paths, local, meta0, prefix) == h0 + Expand(rest, local, meta0, prefix);
      assert Expand(paths, local, meta1, prefix) == h1 + Expand(rest, local, meta1, prefix);
      DownloadsAppend(h0, Expand(rest, local, meta0, prefix));
    }
  }

  /** A metadata dict extended by a pass schedules the same paths as before. */
  lemma ScheduleAfterPass(local: Dict<int>, meta: Dict<Entry>, meta1: Dict<Entry>)
    requires local.Valid()
    requires meta1.order == meta.order + Without(local.order, meta.entries.Keys)
    ensures Schedule(local, meta1) == Schedule(local, meta)
  {
    var added := Without(local.order, meta.entries.Keys);
    var ex := local.entries.Keys;
    WithoutAppend(meta.order, added, ex);
    assert forall p :: p in added ==> p in ex;
    WithoutAll(added, ex);
    calc {
      Without(meta1.order, ex);
      Without(meta.order, ex) + Without(added, ex);
      Without(meta.order, ex) + [];
      Without(meta.order, ex);
    }
  }

  /** Deciding again on the same snapshot with the metadata a completed pass saved
      issues no upload: exactly the earlier downloads recur, in the same order. */
  lemma ReplayIssuesNoUploads(local: Dict<int>, meta: Dict<Entry>, prefix: string, now: int, later: int)
    requires local.Valid() && meta.Valid()
    ensures var first := Decide(local, meta, prefix, now);
      Decide(local, first.meta, prefix, later).actions == Downloads(first.actions)
    ensures var first := Decide(local, meta, prefix, now);
      forall a :: a in Decide(local, first.meta, prefix, later).actions ==> a.kind == Download
  {
    var first := Decide(local, meta, prefix, now);
    var s := Schedule(local, meta);
    ScheduleAfterPass(local, meta, first.meta);
    ScheduleCovers(local, meta);
    ExpandAfterPass(s, local.entries, meta.entries, first.meta.entries, prefix, now);
  }

  /** A dict that already holds every local path, each with the entry a pass wrote,
      is a fixpoint of the metadata update. */
  lemma MetaAfterPass(local: Dict<int>, meta: Dict<Entry>, m1: Dict<Entry>, m2: Dict<Entry>, now: int, later: int)
    requires local.Valid()
    requires m1.entries.Keys == meta.entries.Keys + local.entries.Keys
    requires forall p :: p in m1.entries ==> m1.entries[p] == NewEntry(p, local.entries, meta.entries, now)
    requires m2.order == m1.order + Without(local.order, m1.entries.Keys)
    requires m2.entries.Keys == m1.entries.Keys + local.entries.Keys
    requires forall p :: p in m2.entries ==> m2.entries[p] == NewEntry(p, local.entries, m1.entries, later)
    ensures m2 == m1
  {
    WithoutAll(local.order, m1.entries.Keys);
    forall p | p in m2.entries
      ensures m2.entries[p] == m1.entries[p]
    {
      VerdictAfterPass(p, local.entries, meta.entries, m1.entries, now);
    }
    assert m2.entries == m1.entries;
  }

  /** ... and the metadata it saves is the same as before. */
  lemma ReplayKeepsMetadata(local: Dict<int>, meta: Dict<Entry>, prefix: string, now: int, later: int)
    requires local.Valid() && meta.Valid()
    ensures var first := Decide(local, meta, prefix, now);
      Decide(local, first.meta, prefix, later).meta == first.meta
  {
    var first := Decide(local, meta, prefix, now);
    var second := Decide(local, first.meta, prefix, later);
    MetaAfterPass(local, meta, first.meta, second.meta, now, later);
  }

  // ---------------------------------------------------------------------------
  // A worked pass

  /** Local `a` (mtime 100) and `b` (mtime 50) against stored entries for `a` (100)
      and `c` (10): `a` is skipped, `b` uploaded as new, `c` downloaded as no longer
      local; `b` is appended to the metadata and the other entries are left alone. */
  lemma WorkedPass(a: Path, b: Path, c: Path, prefix: string, now: int, t: int)
    requires a != b && a != c && b != c
    ensures var local := Dict([a, b], map[a := 100, b := 50]);
      var meta := Dict([a, c], map[a := Entry(100, t), c := Entry(10, t)]);
      var plan := Decide(local, meta, prefix, now);
      && plan.actions == [Action(Upload, b, Naming.RemoteKey(prefix, b)), Action(Download, c, Naming.RemoteKey(prefix, c))]
      && plan.meta.order == [a, c, b]
      && plan.meta.entries == map[a := Entry(100, t), b := Entry(50, now), c := Entry(10, t)]
  {
    WorkedDicts(a, b, c, t);
    WorkedActions(a, b, c, prefix, now, t);
    WorkedMeta(a, b, c, prefix, now, t);
  }

  lemma WorkedActions(a: Path, b: Path, c: Path, prefix: string, now: int, t: int)
    requires a != b && a != c && b != c
    requires Dict([a, b], map[a := 100, b := 50]).Valid()
    requires Dict([a, c], map[a := Entry(100, t), c := Entry(10, t)]).Valid()
    ensures Decide(Dict([a, b], map[a := 100, b := 50]), Dict([a, c], map[a := Entry(100, t), c := Entry(10, t)]), prefix, now).actions
      == [Action(Upload, b, Naming.RemoteKey(prefix, b)), Action(Download, c, Naming.RemoteKey(prefix, c))]
  {
    var local := Dict([a, b], map[a := 100, b := 50]);
    var meta := Dict([a, c], map[a := Entry(100, t), c := Entry(10, t)]);
    WorkedWithout(a, b, c);
    assert local.entries.Keys == {a, b};
    assert Schedule(local, meta) == [a, b, c];
    WorkedExpand(a, b, c, prefix, t);
  }

  lemma WorkedMeta(a: Path, b: Path, c: Path, prefix: string, now: int, t: int)
    requires a != b && a != c && b != c
    requires Dict([a, b], map[a := 100, b := 50]).Valid()
    requires Dict([a, c], map[a := Entry(100, t), c := Entry(10, t)]).Valid()
    ensures var m := Decide(Dict([a, b], map[a := 100, b := 50]), Dict([a, c], map[a := Entry(100, t), c := Entry(10, t)]), prefix, now).meta;
      && m.order == [a, c, b]
      && m.entries == map[a := Entry(100, t), b := Entry(50, now), c := Entry(10, t)]
  {
    var m := Decide(Dict([a, b], map[a := 100, b := 50]), Dict([a, c], map[a := Entry(100, t), c := Entry(10, t)]), prefix, now).meta;
    WorkedOrder(m, a, b, c, prefix, now, t);
    WorkedEntryMap(m, a, b, c, prefix, now, t);
  }

  lemma WorkedOrder(m: Dict<Entry>, a: Path, b: Path, c: Path, prefix: string, now: int, t: int)
    requires a != b && a != c && b != c
    requires Dict([a, b], map[a := 100, b := 50]).Valid()
    requires Dict([a, c], map[a := Entry(100, t), c := Entry(10, t)]).Valid()
    requires m == Decide(Dict([a, b], map[a := 100, b := 50]), Dict([a, c], map[a := Entry(100, t), c := Entry(10, t)]), prefix, now).meta
    ensures m.order == [a, c, b]
  {
    WorkedWithout(a, b, c);
    assert map[a := Entry(100, t), c := Entry(10, t)].Keys == {a, c};
  }

  lemma WorkedEntryMap(m: Dict<Entry>, a: Path, b: Path, c: Path, prefix: string, now: int, t: int)
    requires a != b && a != c && b != c
    requires Dict([a, b], map[a := 100, b := 50]).Valid()
    requires Dict([a, c], map[a := Entry(100, t), c := Entry(10, t)]).Valid()
    requires m == Decide(Dict([a, b], map[a := 100, b := 50]), Dict([a, c], map[a := Entry(100, t), c := Entry(10, t)]), prefix, now).meta
    ensures m.entries == map[a := Entry(100, t), b := Entry(50, now), c := Entry(10, t)]
  {
    var local, meta := map[a := 100, b := 50], map[a := Entry(100, t), c := Entry(10, t)];
    assert m.entries.Keys == {a, b, c};
    WorkedEntries(a, b, c, now, t);
    assert m.entries[a] == NewEntry(a, local, meta, now);
    assert m.entries[b] == NewEntry(b, local, meta, now);
    assert m.entries[c] == NewEntry(c, local, meta, now);
    MapOfThree(m.entries, a, b, c, Entry(100, t), Entry(50, now), Entry(10, t));
  }

  lemma WorkedEntries(a: Path, b: Path, c: Path, now: int, t: int)
    requires a != b && a != c && b != c
    ensures var local, meta := map[a := 100, b := 50], map[a := Entry(100, t), c := Entry(10, t)];
      && NewEntry(a, local, meta, now) == Entry(100, t)
      && NewEntry(b, local, meta, now) == Entry(50, now)
      && NewEntry(c, local, meta, now) == Entry(10, t)
  {
  }

  lemma MapOfThree(m: map<Path, Entry>, a: Path, b: Path, c: Path, x: Entry, y: Entry, z: Entry)
    requires m.Keys == {a, b, c} && a in m && b in m && c in m
    requires m[a] == x && m[b] == y && m[c] == z
    requires a != b && a != c && b != c
    ensures m == map[a := x, b := y, c := z]
  {
  }

  lemma WorkedDicts(a: Path, b: Path, c: Path, t: int)
    requires a != b && a != c && b != c
    ensures Dict([a, b], map[a := 100, b := 50]).Valid()
    ensures Dict([a, c], map[a := Entry(100, t), c := Entry(10, t)]).Valid()
  {
  }

  lemma WorkedWithout(a: Path, b: Path, c: Path)
    requires a != b && a != c && b != c
    ensures Without([a, c], {a, b}) == [c]
    ensures Without([a, b], {a, c}) == [b]
  {
    assert [a, c][1..] == [c] && [c][1..] == [];
    assert [a, b][1..] == [b] && [b][1..] == [];
    assert Without([b], {a, c}) == [b] + Without([], {a, c});
    assert Without([c], {a, b}) == [c] + Without([], {a, b});
    assert Without([a, c], {a, b}) == [] + Without([c], {a, b});
    assert Without([a, b], {a, c}) == [] + Without([b], {a, c});
  }

  lemma WorkedExpand(a: Path, b: Path, c: Path, prefix: string, t: int)
    requires a != b && a != c && b != c
    ensures Expand([a, b, c], map[a := 100, b := 50], map[a := Entry(100, t), c := Entry(10, t)], prefix)
      == [Action(Upload, b, Naming.RemoteKey(prefix, b)), Action(Download, c, Naming.RemoteKey(prefix, c))]
  {
    var local, meta := map[a := 100, b := 50], map[a := Entry(100, t), c := Entry(10, t)];
    var kb, kc := Naming.RemoteKey(prefix, b), Naming.RemoteKey(prefix, c);
    assert [a, b, c][1..] == [b, c] && [b, c][1..] == [c] && [c][1..] == [];
    assert Head(a, local, meta, prefix) == [];
    assert Head(b, local, meta, prefix) == [Action(Upload, b, kb)];
    assert Head(c, local, meta, prefix) == [Action(Download, c, kc)];
    assert Expand([c], local, meta, prefix) == [Action(Download, c, kc)] + [];
    assert Expand([b, c], local, meta, prefix) == [Action(Upload, b, kb)] + [Action(Download, c, kc)];
    assert Expand([a, b, c], local, meta, prefix) == [] + Expand([b, c], local, meta, prefix);
  }
}
