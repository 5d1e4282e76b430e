/** Sequence helpers shared by the store queries. */
module Seqs {
  /** `s` back to front. */
  function Reverse<T>(s: seq<T>): (r: seq<T>)
    ensures |r| == |s|
    ensures forall i :: 0 <= i < |s| ==> r[i] == s[|s| - 1 - i]
  {
    if |s| == 0 then [] else Reverse(s[1..]) + [s[0]]
  }

  lemma ReverseMembers<T>(s: seq<T>)
    ensures forall x :: x in Reverse(s) <==> x in s
  {
    var r := Reverse(s);
    forall x | x in s ensures x in r {
      var k :| 0 <= k < |s| && s[k] == x;
      assert r[|s| - 1 - k] == x;
    }
  }

  /** Reversing twice gives back the original. */
  lemma ReverseInvolution<T>(s: seq<T>)
    ensures Reverse(Reverse(s)) == s
  {
    var r := Reverse(Reverse(s));
    assert forall i :: 0 <= i < |s| ==> r[i] == s[i];
  }

  /** The first `k` of the reversal are the last `k` of the original, reversed. */
  lemma ReversePrefix<T>(s: seq<T>, k: nat)
    requires k <= |s|
    ensures Reverse(Reverse(s)[..k]) == s[|s| - k..]
  {
    var r := Reverse(Reverse(s)[..k]);
    var t := s[|s| - k..];
    assert |r| == |t|;
    forall i | 0 <= i < k ensures r[i] == t[i] {
      assert r[i] == Reverse(s)[..k][k - 1 - i];
      assert Reverse(s)[k - 1 - i] == s[|s| - 1 - (k - 1 - i)];
    }
  }
}
