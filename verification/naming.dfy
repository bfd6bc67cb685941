/**
  Names derived from the sync prefix: the object key of a file in the bucket
  and the name of the local lock file that guards a (bucket, prefix) pair.

  The key uses the prefix with its trailing slashes removed; the lock file
  uses the prefix exactly as given, with every '/' turned into '_'.
 */
module Naming {
  import opened PyDict

  /** Python's `s.rstrip('/')`. */
  function RStripSlash(s: string): (r: string)
    ensures r <= s
    ensures r == [] || r[|r| - 1] != '/'
    ensures forall k :: |r| <= k < |s| ==> s[k] == '/'
  {
    if |s| > 0 && s[|s| - 1] == '/' then RStripSlash(s[..|s| - 1]) else s
  }

  /** The object key of `rel` under `prefix`: stripped prefix, '/', relative path. */
  function RemoteKey(prefix: string, rel: Path): string {
    RStripSlash(prefix) + "/" + rel
  }

  /** Python's `s.replace('/', '_')`. */
  function ReplaceSlash(s: string): string {
    seq(|s|, i requires 0 <= i < |s| => if s[i] == '/' then '_' else s[i])
  }

  /** The lock file path `<lockDir>/<bucket>_<prefix with '/' as '_'>.lock`. */
  function LockFile(lockDir: string, bucket: string, prefix: string): string {
    lockDir + "/" + bucket + "_" + ReplaceSlash(prefix) + ".lock"
  }

  /** Slash and underscore are the characters the lock name cannot tell apart. */
  predicate SameUpToSlash(c: char, d: char) {
    c == d || (c in "/_" && d in "/_")
  }

  /** Stripping is exact: the key prefix is the given prefix minus a run of trailing
      slashes, and stripping twice changes nothing. */
  lemma {:induction false} RStripSlashShape(s: string)
    ensures s == RStripSlash(s) + s[|RStripSlash(s)|..]
    ensures RStripSlash(RStripSlash(s)) == RStripSlash(s)
    ensures RStripSlash(s + "/") == RStripSlash(s)
  {
    var t := s + "/";
    assert t[..|t| - 1] == s;
  }

  /** Distinct relative paths get distinct keys under one prefix, and a key starts
      with the stripped prefix followed by a slash. */
  lemma RemoteKeyInjective(prefix: string, rel1: Path, rel2: Path)
    ensures RemoteKey(prefix, rel1) == RemoteKey(prefix, rel2) <==> rel1 == rel2
    ensures RemoteKey(prefix, rel1)[..|RStripSlash(prefix)|] == RStripSlash(prefix)
    ensures RemoteKey(prefix, rel1)[|RStripSlash(prefix)|] == '/'
  {
    var n := |RStripSlash(prefix)| + 1;
    if RemoteKey(prefix, rel1) == RemoteKey(prefix, rel2) {
      assert rel1 == RemoteKey(prefix, rel1)[n..];
      assert rel2 == RemoteKey(prefix, rel2)[n..];
    }
  }

  /** Two prefixes name the same objects exactly when they agree once trailing
      slashes are removed. */
  lemma SameKeysIff(p: string, q: string, rel: Path)
    ensures RemoteKey(p, rel) == RemoteKey(q, rel) <==> RStripSlash(p) == RStripSlash(q)
  {
    if RemoteKey(p, rel) == RemoteKey(q, rel) {
      var kp := RemoteKey(p, rel);
      assert |RStripSlash(p)| == |RStripSlash(q)|;
      assert RStripSlash(p) == kp[..|RStripSlash(p)|];
      assert RStripSlash(q) == kp[..|RStripSlash(q)|];
    }
  }

  /** For a fixed directory and bucket, two prefixes share a lock file exactly when
      they have the same length and differ only by swapping '/' and '_'. */
  lemma SameLockFileIff(lockDir: string, bucket: string, p: string, q: string)
    ensures LockFile(lockDir, bucket, p) == LockFile(lockDir, bucket, q)
        <==> |p| == |q| && forall i :: 0 <= i < |p| ==> SameUpToSlash(p[i], q[i])
  {
    var head := lockDir + "/" + bucket + "_";
    var lp, lq := LockFile(lockDir, bucket, p), LockFile(lockDir, bucket, q);
    assert lp == head + ReplaceSlash(p) + ".lock";
    assert lq == head + ReplaceSlash(q) + ".lock";
    if lp == lq {
      assert |p| == |q|;
      assert ReplaceSlash(p) == lp[|head|..|head| + |p|];
      assert ReplaceSlash(q) == lq[|head|..|head| + |q|];
      forall i | 0 <= i < |p|
        ensures SameUpToSlash(p[i], q[i])
      {
        assert ReplaceSlash(p)[i] == ReplaceSlash(q)[i];
      }
    }
    if |p| == |q| && forall i :: 0 <= i < |p| ==> SameUpToSlash(p[i], q[i]) {
      assert ReplaceSlash(p) == ReplaceSlash(q) by {
        forall i | 0 <= i < |p|
          ensures ReplaceSlash(p)[i] == ReplaceSlash(q)[i]
        {
          assert SameUpToSlash(p[i], q[i]);
        }
      }
    }
  }

  /** The lock and the keys disagree on which prefixes are the same target:
      "p" and "p/" write the same objects under different locks, while "a/b" and
      "a_b" write different objects under one lock. */
  lemma LockAndKeyDisagree(lockDir: string, bucket: string, rel: Path)
    ensures RemoteKey("p", rel) == RemoteKey("p/", rel)
    ensures LockFile(lockDir, bucket, "p") != LockFile(lockDir, bucket, "p/")
    ensures RemoteKey("a/b", rel) != RemoteKey("a_b", rel)
    ensures LockFile(lockDir, bucket, "a/b") == LockFile(lockDir, bucket, "a_b")
  {
    RStripSlashShape("p");
    SameKeysIff("p", "p/", rel);
    SameKeysIff("a/b", "a_b", rel);
    SameLockFileIff(lockDir, bucket, "p", "p/");
    SameLockFileIff(lockDir, bucket, "a/b", "a_b");
    assert SameUpToSlash("a/b"[1], "a_b"[1]);
  }

  /** The lock file name built from the prefix the keys use: trailing slashes are
      removed before '/' is turned into '_'. */
  function TargetLockFile(lockDir: string, bucket: string, prefix: string): string {
    LockFile(lockDir, bucket, RStripSlash(prefix))
  }

  /** With the corrected name, two passes that write the same objects always
      contend for the same lock; in particular "p" and "p/" now share one. */
  lemma SameTargetSameLock(lockDir: string, bucket: string, p: string, q: string, rel: Path)
    requires RemoteKey(p, rel) == RemoteKey(q, rel)
    ensures TargetLockFile(lockDir, bucket, p) == TargetLockFile(lockDir, bucket, q)
    ensures TargetLockFile(lockDir, bucket, "p") == TargetLockFile(lockDir, bucket, "p/")
  {
    SameKeysIff(p, q, rel);
    RStripSlashShape("p");
  }
}
