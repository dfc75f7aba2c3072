/** Taking one element out of a sequence. */
module Sequences {
  function RemoveAt<T>(s: seq<T>, k: nat): (r: seq<T>)
    requires k < |s|
    ensures |r| == |s| - 1
    ensures forall i :: 0 <= i < |r| ==> r[i] == if i < k then s[i] else s[i + 1]
  {
    s[..k] + s[k + 1..]
  }

  lemma RemoveAtKeeps<T>(s: seq<T>, k: nat)
    requires k < |s| && forall i, j :: 0 <= i < j < |s| ==> s[i] != s[j]
    ensures forall x :: x in RemoveAt(s, k) ==> x in s
    ensures forall i, j :: 0 <= i < j < |s| - 1 ==> RemoveAt(s, k)[i] != RemoveAt(s, k)[j]
  {
  }

  lemma InRemoveAt<T>(s: seq<T>, k: nat, x: T)
    requires k < |s| && x in s && x != s[k]
    ensures x in RemoveAt(s, k)
  {
    var i :| 0 <= i < |s| && s[i] == x;
    assert RemoveAt(s, k)[if i < k then i else i - 1] == x;
  }
}
