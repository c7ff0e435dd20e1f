/** Where the parts of a concatenation end up. */
module Slices {
  lemma SubSlice<T>(s: seq<T>, i: nat, j: nat, a: nat, b: nat)
    requires i <= j <= |s| && a <= b <= j - i
    ensures s[i..j][a..b] == s[i + a..i + b]
  {
    var x, y := s[i..j][a..b], s[i + a..i + b];
    assert forall k | 0 <= k < b - a :: x[k] == s[i + a + k];
    assert forall k | 0 <= k < b - a :: y[k] == s[i + a + k];
  }

  lemma Parts4<T>(a: seq<T>, b: seq<T>, c: seq<T>, d: seq<T>)
    ensures var s := a + b + c + d;
            var i := |a|; var j := i + |b|; var k := j + |c|;
            s[0..i] == a && s[i..j] == b && s[j..k] == c && s[k..] == d
  {
  }

  lemma Parts5<T>(a: seq<T>, b: seq<T>, c: seq<T>, d: seq<T>, e: seq<T>)
    ensures var s := a + b + c + d + e;
            var i := |a|; var j := i + |b|; var k := j + |c|; var l := k + |d|;
            s[0..i] == a && s[i..j] == b && s[j..k] == c && s[k..l] == d && s[l..] == e
  {
  }
}
