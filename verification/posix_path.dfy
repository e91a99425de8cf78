/**
 The two `os.path` functions the launcher uses, as POSIX Python defines them:
 the path is cut just after its last `/`; `basename` is what follows the cut;
 `dirname` is what precedes it, with trailing slashes removed unless it
 consists of slashes only.
 */
module PosixPath {

  /** Every character of `s` is a slash (vacuously so for the empty string). */
  predicate AllSlashes(s: string)
  {
    forall k :: 0 <= k < |s| ==> s[k] == '/'
  }

  /** Index just past the last `/` of `p`, or 0 when `p` has no `/`. */
  function TailStart(p: string): (i: nat)
    ensures i <= |p|
    ensures forall k :: i <= k < |p| ==> p[k] != '/'
    ensures i > 0 ==> p[i - 1] == '/'
    decreases |p|
  {
    if |p| == 0 then 0
    else if p[|p| - 1] == '/' then |p|
    else
      var q := p[..|p| - 1];
      assert forall k :: 0 <= k < |q| ==> q[k] == p[k];
      TailStart(q)
  }

  /** `os.path.basename(p)`. */
  function Basename(p: string): (r: string)
    ensures '/' !in r
    ensures p == p[..TailStart(p)] + r
  {
    p[TailStart(p)..]
  }

  /** `s.rstrip('/')`. */
  function RStripSlashes(s: string): (r: string)
    ensures |r| <= |s| && r == s[..|r|]
    ensures AllSlashes(s[|r|..])
    ensures r == [] || r[|r| - 1] != '/'
    decreases |s|
  {
    if |s| > 0 && s[|s| - 1] == '/' then
      var q := s[..|s| - 1];
      var r := RStripSlashes(q);
      assert s[|r|..] == q[|r|..] + ['/'];
      r
    else s
  }

  /** `os.path.dirname(p)`. */
  function Dirname(p: string): (r: string)
    ensures |r| <= TailStart(p) && r == p[..|r|]
    ensures AllSlashes(p[|r|..TailStart(p)])
    ensures r == [] <==> '/' !in p
    ensures !AllSlashes(r) ==> r[|r| - 1] != '/'
    ensures AllSlashes(p[..TailStart(p)]) ==> r == p[..TailStart(p)]
  {
    var i := TailStart(p);
    var head := p[..i];
    if head != [] && !AllSlashes(head) then
      var r := RStripSlashes(head);
      assert p[|r|..i] == head[|r|..];
      r
    else
      assert p[i..i] == [];
      assert i > 0 ==> p[i - 1] in p;
      head
  }

  /**
   A path is rebuilt from its directory part, the slashes `dirname` dropped,
   and its base name: the two functions lose nothing but those slashes.
   */
  lemma DirnameBasename(p: string)
    ensures p == Dirname(p) + p[|Dirname(p)|..TailStart(p)] + Basename(p)
    ensures AllSlashes(p[|Dirname(p)|..TailStart(p)])
  {
    var d := Dirname(p);
    var i := TailStart(p);
    assert p[..i] == d + p[|d|..i];
  }
}
