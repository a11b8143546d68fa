// copy and copy_backward of dbase/stl/algobase.h, also between overlapping ranges of one array.

module Copies {
  /** `s` with `part` written over it from `at` on. */
  function Overwrite<T>(s: seq<T>, at: nat, part: seq<T>): seq<T>
    requires at + |part| <= |s|
  {
    s[..at] + part + s[at + |part|..]
  }

  lemma OverwriteParts<T>(s: seq<T>, at: nat, part: seq<T>)
    requires at + |part| <= |s|
    ensures var t := Overwrite(s, at, part);
            && |t| == |s| && t[at..at + |part|] == part
            && t[..at] == s[..at] && t[at + |part|..] == s[at + |part|..]
  {
  }

  lemma OverwriteFromPoints<T>(s: seq<T>, at: nat, part: seq<T>, t: seq<T>)
    requires at + |part| <= |s| == |t|
    requires forall x :: 0 <= x < |s| ==> t[x] == if at <= x < at + |part| then part[x - at] else s[x]
    ensures t == Overwrite(s, at, part)
  {
  }

  /** Front to back: the target may overlap the source when it starts no later. */
  method Copy<T>(src: array<T>, first0: nat, last: nat, dst: array<T>, result0: nat) returns (result: nat)
    requires first0 <= last <= src.Length && result0 + (last - first0) <= dst.Length
    requires src != dst || result0 <= first0 || last <= result0
    modifies dst
    ensures dst[..] == Overwrite(old(dst[..]), result0, old(src[first0..last]))
    ensures result == result0 + (last - first0)
  {
    hide Overwrite;
    ghost var s, part := dst[..], src[first0..last];
    var first, n := first0, last - first0;
    result := result0;
    while n > 0
      invariant first0 <= first <= last && n == last - first && result - result0 == first - first0
      invariant forall x :: 0 <= x < dst.Length ==> dst[x] == if result0 <= x < result then part[x - result0] else s[x]
      invariant forall x :: first <= x < last ==> src[x] == part[x - first0]
    {
      dst[result] := src[first];
      n, first, result := n - 1, first + 1, result + 1;
    }
    OverwriteFromPoints(s, result0, part, dst[..]);
  }

  /** Back to front: the target may overlap the source when it ends no earlier. */
  method CopyBackward<T>(src: array<T>, first: nat, last0: nat, dst: array<T>, result0: nat) returns (result: nat)
    requires first <= last0 <= src.Length && last0 - first <= result0 <= dst.Length
    requires src != dst || last0 <= result0 || result0 <= first
    modifies dst
    ensures result == result0 - (last0 - first)
    ensures dst[..] == Overwrite(old(dst[..]), result0 - (last0 - first), old(src[first..last0]))
  {
    hide Overwrite;
    ghost var s, part, at := dst[..], src[first..last0], result0 - (last0 - first);
    var last, n := last0, last0 - first;
    result := result0;
    while n > 0
      invariant first <= last <= last0 && n == last - first && result0 - result == last0 - last
      invariant forall x :: 0 <= x < dst.Length ==> dst[x] == if result <= x < result0 then part[x - at] else s[x]
      invariant forall x :: first <= x < last ==> src[x] == part[x - first]
    {
      last, result := last - 1, result - 1;
      dst[result] := src[last];
      n := n - 1;
    }
    OverwriteFromPoints(s, at, part, dst[..]);
  }
}
