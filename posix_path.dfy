/**
 * The part of Python's POSIX path module that the tag store relies on:
 * `os.path.split`, which cuts a path at its last '/' and strips the
 * separators that end the head unless the head consists of separators only.
 */
module PosixPath {

  /** Every character of `s` is the separator '/' (true of the empty string). */
  predicate AllSlashes(s: string) {
    forall i :: 0 <= i < |s| ==> s[i] == '/'
  }

  /** `s.rfind('/') + 1`: the index just after the last '/', or 0 when there is none. */
  function AfterLastSlash(s: string): (i: nat)
    ensures i <= |s|
    ensures '/' !in s[i..]
    ensures 0 < i ==> s[i - 1] == '/'
  {
    if s == [] then 0
    else if s[|s| - 1] == '/' then |s|
    else
      var i := AfterLastSlash(s[..|s| - 1]);
      assert s[i..] == s[..|s| - 1][i..] + [s[|s| - 1]];
      i
  }

  /** `s.rstrip('/')`: the longest prefix of `s` that does not end in '/'. */
  function StripTrailingSlashes(s: string): (r: string)
    ensures |r| <= |s| && r == s[..|r|]
    ensures AllSlashes(s[|r|..])
    ensures r == [] || r[|r| - 1] != '/'
  {
    if s != [] && s[|s| - 1] == '/' then
      var r := StripTrailingSlashes(s[..|s| - 1]);
      assert s[|r|..] == s[..|s| - 1][|r|..] + ['/'];
      r
    else s
  }

  /**
   * `os.path.split(p)`: (head, tail) where tail is everything after the last
   * '/', and head is what precedes it with its trailing separators removed,
   * unless head is made of separators only (then it is kept as it is).
   */
  function Split(p: string): (r: (string, string))
    ensures '/' !in r.1 && |r.1| <= |p| && p[|p| - |r.1|..] == r.1
    ensures '/' in p ==> |r.1| < |p| && p[|p| - |r.1| - 1] == '/'
    ensures '/' !in p ==> r == ("", p)
    ensures |r.0| <= |p| - |r.1| && p[..|r.0|] == r.0 && AllSlashes(p[|r.0|..|p| - |r.1|])
    ensures AllSlashes(r.0) ==> r.0 == p[..|p| - |r.1|]
    ensures AllSlashes(r.0) || r.0[|r.0| - 1] != '/'
  {
    var i := AfterLastSlash(p);
    var head, tail := p[..i], p[i..];
    assert '/' !in p ==> i == 0;
    assert 0 < i ==> p[i - 1] in p;
    if head != [] && !AllSlashes(head) then
      var h := StripTrailingSlashes(head);
      assert p[|h|..i] == head[|h|..];
      (h, tail)
    else (head, tail)
  }

  /** Joining a head that does not end in '/' to a '/'-free tail with one '/' is undone by `Split`. */
  lemma SplitJoin(head: string, tail: string)
    requires '/' !in tail
    requires head != [] && head[|head| - 1] != '/'
    ensures Split(head + "/" + tail) == (head, tail)
  {
    var p := head + "/" + tail;
    var n := |head|;
    assert p[n] == '/' && p[n - 1] == head[n - 1];
    assert p[n + 1..] == tail && p[..n] == head;
    SplitAtLastSlash(p, n);
  }

  /** When index `n` holds the last '/' and the character before it is not '/', `Split` cuts there. */
  lemma SplitAtLastSlash(p: string, n: int)
    requires 0 < n < |p| && p[n] == '/' && p[n - 1] != '/' && '/' !in p[n + 1..]
    ensures Split(p) == (p[..n], p[n + 1..])
  {
    var r := Split(p);
    var m := |p| - |r.1|;
    assert n + 1 <= m by {
      assert p[m..] == r.1;
      assert forall k :: m <= k < |p| ==> p[k] == r.1[k - m];
      assert forall k :: m <= k < |p| ==> p[k] != '/';
    }
    assert m <= n + 1 by {
      assert forall k :: n < k < |p| ==> p[k] == p[n + 1..][k - n - 1];
      assert forall k :: n < k < |p| ==> p[k] != '/';
    }
    assert r.1 == p[n + 1..];
    assert |r.0| >= n by {
      assert AllSlashes(p[|r.0|..n + 1]);
      assert forall k :: |r.0| <= k <= n ==> p[k] == p[|r.0|..n + 1][k - |r.0|];
      assert forall k :: |r.0| <= k <= n ==> p[k] == '/';
    }
    assert !AllSlashes(r.0) by {
      assert |r.0| <= n ==> r.0[n - 1] == p[n - 1];
    }
    assert |r.0| <= n;
  }
}
