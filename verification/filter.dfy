/**
  The extension filter and the local file enumeration.

  A file is admitted by looking only at its base name: its extension is taken
  as `os.path.splitext` does (the suffix from the last '.', provided something
  other than dots precedes that '.' in the last path component), lower-cased,
  and looked up in the extension set, which acts as a whitelist or a blacklist.
  An empty set admits everything.
 */
module FileFilter {
  import opened PyDict

  /** Index of the last occurrence of `c` in `s`, or -1 (Python's `s.rfind(c)`). */
  function LastIndex(s: string, c: char): (i: int)
    ensures -1 <= i < |s|
    ensures i >= 0 ==> s[i] == c
    ensures forall j :: i < j < |s| ==> s[j] != c
  {
    if |s| == 0 then -1
    else if s[|s| - 1] == c then |s| - 1
    else LastIndex(s[..|s| - 1], c)
  }

  predicate HasNonDot(s: string) {
    exists k :: 0 <= k < |s| && s[k] != '.'
  }

  /** `os.path.splitext` on a POSIX path: (root, ext). */
  function SplitExt(p: string): (string, string) {
    var sep := LastIndex(p, '/');
    var dot := LastIndex(p, '.');
    if dot > sep && HasNonDot(p[sep + 1..dot]) then (p[..dot], p[dot..]) else (p, "")
  }

  function Ext(p: string): string {
    SplitExt(p).1
  }

  /** Reference definition: `e` is the extension of `p` when it is a suffix of `p`
      that starts with '.', holds no other '.' and no '/', and the part of the last
      path component before it is not all dots. */
  predicate IsExtOf(p: string, e: string) {
    && 0 < |e| <= |p|
    && p[|p| - |e|..] == e
    && e[0] == '.'
    && (forall k :: 0 < k < |e| ==> e[k] != '.' && e[k] != '/')
    && HasNonDot(p[LastIndex(p, '/') + 1..|p| - |e|])
  }

  /** splitext splits without losing characters, and its extension is empty or is
      exactly the one the reference definition picks out; there is at most one. */
  lemma SplitExtSpec(p: string, e: string)
    ensures SplitExt(p).0 + SplitExt(p).1 == p
    ensures Ext(p) != "" ==> IsExtOf(p, Ext(p))
    ensures IsExtOf(p, e) ==> Ext(p) == e
  {
    SplitExtSound(p);
    if IsExtOf(p, e) {
      SplitExtComplete(p, e);
    }
  }

  lemma SplitExtSound(p: string)
    ensures SplitExt(p).0 + SplitExt(p).1 == p
    ensures Ext(p) != "" ==> IsExtOf(p, Ext(p))
  {
    var sep := LastIndex(p, '/');
    var dot := LastIndex(p, '.');
    if dot > sep && HasNonDot(p[sep + 1..dot]) {
      var x := p[dot..];
      assert SplitExt(p) == (p[..dot], x);
      assert p[..dot] + x == p;
      assert |p| - |x| == dot;
      assert p[|p| - |x|..] == x;
      forall k | 0 < k < |x|
        ensures x[k] != '.' && x[k] != '/'
      {
        assert x[k] == p[dot + k];
      }
      assert HasNonDot(p[sep + 1..|p| - |x|]);
    } else {
      assert SplitExt(p) == (p, "");
    }
  }

  lemma SplitExtComplete(p: string, e: string)
    requires IsExtOf(p, e)
    ensures Ext(p) == e
  {
    var sep := LastIndex(p, '/');
    var dot := LastIndex(p, '.');
    var d := |p| - |e|;
    assert p[d] == e[0];
    forall j | d < j < |p|
      ensures p[j] != '.' && p[j] != '/'
    {
      assert p[j] == e[j - d];
    }
    assert dot == d;
    assert sep < d;
    assert p[dot..] == e;
  }

  /** A name with no qualifying dot has the empty extension. */
  lemma NoExtension(p: string)
    requires forall e :: !IsExtOf(p, e)
    ensures Ext(p) == ""
  {
    SplitExtSpec(p, "");
  }

  function LowerChar(c: char): char {
    if 'A' <= c <= 'Z' then (c as int + 32) as char else c
  }

  predicate IsUpper(c: char) {
    'A' <= c <= 'Z'
  }

  predicate HasUpper(s: string) {
    exists k :: 0 <= k < |s| && IsUpper(s[k])
  }

  /** Python's `s.lower()` on ASCII letters. */
  function Lower(s: string): (r: string)
    ensures |r| == |s|
    ensures !HasUpper(r)
    ensures !HasUpper(s) ==> r == s
    // 'A'..'Z' become 'a'..'z' and every other character is kept
    ensures forall i :: 0 <= i < |s| ==>
      if IsUpper(s[i]) then 'a' <= r[i] <= 'z' && r[i] as int - s[i] as int == 'a' as int - 'A' as int
      else r[i] == s[i]
  {
    seq(|s|, i requires 0 <= i < |s| => LowerChar(s[i]))
  }

  /** Two strings lower-case alike exactly when they have the same length and agree
      position by position up to the case of ASCII letters. */
  lemma LowerSameIff(s: string, t: string)
    ensures Lower(s) == Lower(t) <==>
      |s| == |t| && forall i :: 0 <= i < |s| ==> LowerChar(s[i]) == LowerChar(t[i])
  {
    if Lower(s) == Lower(t) {
      forall i | 0 <= i < |s|
        ensures LowerChar(s[i]) == LowerChar(t[i])
      {
        assert Lower(s)[i] == Lower(t)[i];
      }
    }
  }

  /** `should_sync_file(filename, extensions, blacklist)`. */
  predicate ShouldSync(filename: string, extensions: set<string>, blacklist: bool) {
    if extensions == {} then true
    else
      var ext := Lower(Ext(filename));
      if blacklist then ext !in extensions else ext in extensions
  }

  /** An empty extension set admits every name in both modes. */
  lemma EmptySetAdmitsAll(filename: string, blacklist: bool)
    ensures ShouldSync(filename, {}, blacklist)
  {
  }

  /** Whitelist and blacklist in terms of the reference extension: a name with an
      extension is admitted by the whitelist iff its lower-cased extension is listed,
      and by the blacklist iff it is not; a name without one is treated as having
      the extension "". */
  lemma FilterByExtension(filename: string, e: string, extensions: set<string>)
    requires extensions != {}
    requires IsExtOf(filename, e)
    ensures ShouldSync(filename, extensions, false) <==> Lower(e) in extensions
    ensures ShouldSync(filename, extensions, true) <==> Lower(e) !in extensions
  {
    SplitExtSpec(filename, e);
  }

  lemma FilterWithoutExtension(filename: string, extensions: set<string>)
    requires extensions != {}
    requires forall e :: !IsExtOf(filename, e)
    ensures ShouldSync(filename, extensions, false) <==> "" in extensions
    ensures ShouldSync(filename, extensions, true) <==> "" !in extensions
  {
    NoExtension(filename);
  }

  /** For a non-empty set the two modes give opposite verdicts. */
  lemma ModesAreComplements(filename: string, extensions: set<string>)
    requires extensions != {}
    ensures ShouldSync(filename, extensions, true) == !ShouldSync(filename, extensions, false)
  {
  }

  /** Only the name is lower-cased: a set entry holding an upper-case letter never
      matches, so a set made only of such entries admits nothing as a whitelist and
      everything as a blacklist. */
  lemma UpperCaseEntriesNeverMatch(filename: string, extensions: set<string>)
    requires extensions != {}
    requires forall x :: x in extensions ==> HasUpper(x)
    ensures !ShouldSync(filename, extensions, false)
    ensures ShouldSync(filename, extensions, true)
  {
    var ext := Lower(Ext(filename));
    assert !HasUpper(ext);
  }

  /** The caller's normalisation `set(ext.lower() for ext in (extensions or []))`. */
  function NormalizeExtensions(extensions: Option<seq<string>>): (r: set<string>)
    ensures forall x :: x in r ==> !HasUpper(x)
    ensures extensions.None? ==> r == {}
    ensures extensions.Some? ==>
      forall x :: x in r <==> exists i :: 0 <= i < |extensions.value| && Lower(extensions.value[i]) == x
  {
    match extensions
    case None => {}
    case Some(xs) => set i | 0 <= i < |xs| :: Lower(xs[i])
  }

  /** After normalisation the whitelist is case-insensitive: a configured ".TXT"
      admits both "a.txt" and "B.TxT". */
  lemma NormalizedWhitelistIgnoresCase(filename: string, e: string, xs: seq<string>, i: nat)
    requires i < |xs|
    requires IsExtOf(filename, e)
    requires Lower(e) == Lower(xs[i])
    ensures ShouldSync(filename, NormalizeExtensions(Some(xs)), false)
    ensures !ShouldSync(filename, NormalizeExtensions(Some(xs)), true)
  {
    var exts := NormalizeExtensions(Some(xs));
    assert Lower(xs[i]) in exts;
    FilterByExtension(filename, e, exts);
  }

  /** One file reported by the directory walk: the directory relative to the sync
      root ("" for the root itself), the base file name, and its mtime. */
  datatype WalkEntry = WalkEntry(dir: string, name: string, mtime: int)

  /** `os.path.relpath(os.path.join(root, filename), local_path)`. */
  function RelPath(w: WalkEntry): Path {
    if w.dir == "" then w.name else w.dir + "/" + w.name
  }

  predicate Admitted(w: WalkEntry, extensions: set<string>, blacklist: bool) {
    ShouldSync(w.name, extensions, blacklist)
  }

  /** The walk reports an admitted file whose relative path is `p`. */
  ghost predicate Lists(walk: seq<WalkEntry>, extensions: set<string>, blacklist: bool, p: Path) {
    exists i :: 0 <= i < |walk| && Admitted(walk[i], extensions, blacklist) && RelPath(walk[i]) == p
  }

  /** `walk[i]` is admitted and no later admitted entry has the same relative path. */
  ghost predicate LastFor(walk: seq<WalkEntry>, extensions: set<string>, blacklist: bool, i: int) {
    && 0 <= i < |walk|
    && Admitted(walk[i], extensions, blacklist)
    && forall j :: i < j < |walk| && Admitted(walk[j], extensions, blacklist) ==> RelPath(walk[j]) != RelPath(walk[i])
  }

  /** `get_local_files` over an abstract walk: every admitted entry is stored under
      its relative path with its mtime, later entries overwriting earlier ones. */
  function LocalFiles(walk: seq<WalkEntry>, extensions: set<string>, blacklist: bool): (d: Dict<int>)
    ensures d.Valid()
  {
    if walk == [] then Empty()
    else
      var before := LocalFiles(walk[..|walk| - 1], extensions, blacklist);
      var w := walk[|walk| - 1];
      if Admitted(w, extensions, blacklist) then before.Put(RelPath(w), w.mtime) else before
  }

  /** `walk[i]` is admitted and no earlier admitted entry has the same relative path. */
  predicate FirstFor(walk: seq<WalkEntry>, extensions: set<string>, blacklist: bool, i: int) {
    && 0 <= i < |walk|
    && Admitted(walk[i], extensions, blacklist)
    && forall j :: 0 <= j < i && Admitted(walk[j], extensions, blacklist) ==> RelPath(walk[j]) != RelPath(walk[i])
  }

  /** Reference order: the relative paths of the first `n` walked entries that are
      the first admitted report of their path, in walk order. */
  function FirstSeen(walk: seq<WalkEntry>, extensions: set<string>, blacklist: bool, n: nat): seq<Path>
    requires n <= |walk|
  {
    if n == 0 then []
    else FirstSeen(walk, extensions, blacklist, n - 1)
         + (if FirstFor(walk, extensions, blacklist, n - 1) then [RelPath(walk[n - 1])] else [])
  }

  /** The enumeration's key order, which the first loop of the sync pass follows,
      is the order in which the walk first reports each admitted path; a path the
      walk reports again keeps its place. */
  lemma {:induction false} LocalFilesOrder(walk: seq<WalkEntry>, extensions: set<string>, blacklist: bool, n: nat)
    requires n <= |walk|
    ensures LocalFiles(walk[..n], extensions, blacklist).order == FirstSeen(walk, extensions, blacklist, n)
    ensures n == |walk| ==> LocalFiles(walk, extensions, blacklist).order == FirstSeen(walk, extensions, blacklist, n)
  {
    assert walk[..|walk|] == walk;
    if n > 0 {
      var init := walk[..n - 1];
      var w := walk[n - 1];
      assert walk[..n][..n - 1] == init;
      assert walk[..n][n - 1] == w;
      LocalFilesOrder(walk, extensions, blacklist, n - 1);
      FirstForIff(walk, extensions, blacklist, n);
      var before := LocalFiles(init, extensions, blacklist);
      assert LocalFiles(walk[..n], extensions, blacklist)
        == if Admitted(w, extensions, blacklist) then before.Put(RelPath(w), w.mtime) else before;
    }
  }

  /** The `n`-th walked entry is the first admitted report of its path exactly when
      it is admitted and the enumeration of the entries before it lacks its path. */
  lemma FirstForIff(walk: seq<WalkEntry>, extensions: set<string>, blacklist: bool, n: nat)
    requires 0 < n <= |walk|
    ensures FirstFor(walk, extensions, blacklist, n - 1) <==>
      Admitted(walk[n - 1], extensions, blacklist)
      && RelPath(walk[n - 1]) !in LocalFiles(walk[..n - 1], extensions, blacklist).entries
  {
    var init := walk[..n - 1];
    var w := walk[n - 1];
    LocalFilesKeys(init, extensions, blacklist, RelPath(w));
    if Admitted(w, extensions, blacklist) {
      if Lists(init, extensions, blacklist, RelPath(w)) {
        var j :| 0 <= j < |init| && Admitted(init[j], extensions, blacklist) && RelPath(init[j]) == RelPath(w);
        assert walk[j] == init[j];
      } else {
        forall j | 0 <= j < n - 1 && Admitted(walk[j], extensions, blacklist)
          ensures RelPath(walk[j]) != RelPath(w)
        {
          assert init[j] == walk[j];
        }
      }
    }
  }

  /** The enumeration has one key per admitted walked file, its relative path.
      Admission looks at the entry's base name only. */
  lemma {:induction false} LocalFilesKeys(walk: seq<WalkEntry>, extensions: set<string>, blacklist: bool, p: Path)
    ensures p in LocalFiles(walk, extensions, blacklist).entries <==> Lists(walk, extensions, blacklist, p)
  {
    if walk != [] {
      var init := walk[..|walk| - 1];
      var n := |walk| - 1;
      LocalFilesKeys(init, extensions, blacklist, p);
      if Lists(init, extensions, blacklist, p) {
        var i :| 0 <= i < |init| && Admitted(init[i], extensions, blacklist) && RelPath(init[i]) == p;
        assert walk[i] == init[i];
      }
      if Lists(walk, extensions, blacklist, p) {
        var i :| 0 <= i < |walk| && Admitted(walk[i], extensions, blacklist) && RelPath(walk[i]) == p;
        if i < n {
          assert init[i] == walk[i];
        }
      }
    }
  }

  /** The value stored under a walked file's relative path is that file's mtime
      (the last one, should the walk report a path twice). */
  lemma {:induction false} LocalFilesValues(walk: seq<WalkEntry>, extensions: set<string>, blacklist: bool, i: int)
    requires LastFor(walk, extensions, blacklist, i)
    ensures RelPath(walk[i]) in LocalFiles(walk, extensions, blacklist).entries
    ensures LocalFiles(walk, extensions, blacklist).entries[RelPath(walk[i])] == walk[i].mtime
  {
    var init := walk[..|walk| - 1];
    var n := |walk| - 1;
    var w := walk[n];
    var before := LocalFiles(init, extensions, blacklist);
    var d := LocalFiles(walk, extensions, blacklist);
    assert d == if Admitted(w, extensions, blacklist) then before.Put(RelPath(w), w.mtime) else before;
    if i < n {
      assert init[i] == walk[i];
      assert Admitted(w, extensions, blacklist) ==> RelPath(w) != RelPath(walk[i]);
      LastForInit(walk, extensions, blacklist, i);
      LocalFilesValues(init, extensions, blacklist, i);
    }
  }

  /** An entry that is last for its path stays last once the walk is cut short after it. */
  lemma LastForInit(walk: seq<WalkEntry>, extensions: set<string>, blacklist: bool, i: int)
    requires LastFor(walk, extensions, blacklist, i) && i < |walk| - 1
    ensures LastFor(walk[..|walk| - 1], extensions, blacklist, i)
  {
    var init := walk[..|walk| - 1];
    forall j | i < j < |init| && Admitted(init[j], extensions, blacklist)
      ensures RelPath(init[j]) != RelPath(init[i])
    {
      assert init[j] == walk[j];
    }
  }
}
