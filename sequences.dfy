/** Small facts about sequence concatenation, kept apart so that proofs can cite them cheaply. */
module Sequences {
  /** A sequence is its prefix up to `i` followed by the rest. */
  lemma SplitAt<T>(s: seq<T>, i: nat)
    requires i <= |s|
    ensures s[..i] + s[i..] == s
  {
  }

  lemma HeadTail<T>(s: seq<T>)
    requires |s| >= 1
    ensures s == [s[0]] + s[1..]
  {
  }

  lemma Associative<T>(a: seq<T>, b: seq<T>, c: seq<T>)
    ensures a + b + c == a + (b + c)
  {
  }

  lemma EmptyInFront<T>(a: seq<T>, b: seq<T>)
    ensures [] + a + b == a + b
  {
  }

  /** The pieces of `ss` laid end to end. */
  function Flatten<T>(ss: seq<seq<T>>): seq<T> {
    if ss == [] then [] else ss[0] + Flatten(ss[1..])
  }

  /** One more piece at the end extends the flattening by that piece. */
  lemma {:induction false} FlattenSnoc<T>(ss: seq<seq<T>>, b: seq<T>)
    ensures Flatten(ss + [b]) == Flatten(ss) + b
  {
    if ss == [] {
      assert [] + [b] == [b];
    } else {
      assert (ss + [b])[1..] == ss[1..] + [b];
      FlattenSnoc(ss[1..], b);
    }
  }
}
