/** Small facts about sequences used by the tokenizer and decoder proofs. */
module Seqs {

  /** A slice of a slice is a slice of the original sequence. */
  lemma SliceOfSlice<T>(s: seq<T>, a: nat, b: nat, c: nat, d: nat)
    requires a <= b <= |s| && c <= d <= b - a
    ensures s[a..b][c..d] == s[a + c..a + d]
  {
    var u := s[a..b][c..d];
    var v := s[a + c..a + d];
    forall j | 0 <= j < |u| ensures u[j] == v[j] {
      assert u[j] == s[a..b][c + j] == s[a + c + j];
    }
  }
}
