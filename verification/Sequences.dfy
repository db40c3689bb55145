/** Equalities between sequences, stated once so that other proofs need not search for them. */
module Sequences {

  lemma Associative<T>(a: seq<T>, b: seq<T>, c: seq<T>)
    ensures a + b + c == a + (b + c)
  {
  }

  lemma JoinSlices<T>(s: seq<T>, i: nat, j: nat)
    requires i <= j <= |s|
    ensures s[..i] + s[i..j] == s[..j]
  {
  }

  lemma DropLast<T>(s: seq<T>, x: T)
    ensures (s + [x])[..|s|] == s
  {
  }
}
