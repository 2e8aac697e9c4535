/** Sequence helpers shared by the splitters and the batcher. */
module Seqs {

  /** The last element of a non-empty sequence. */
  function Last<T>(s: seq<T>): T
    requires s != []
  {
    s[|s| - 1]
  }

  /** Everything but the last element of a non-empty sequence. */
  function Init<T>(s: seq<T>): seq<T>
    requires s != []
  {
    s[..|s| - 1]
  }

  lemma InitLast<T>(s: seq<T>)
    requires s != []
    ensures s == Init(s) + [Last(s)]
  {
  }

  lemma InitSnoc<T>(s: seq<T>, x: T)
    ensures Init(s + [x]) == s && Last(s + [x]) == x
  {
  }

  /** Of two parts one of which is empty, the order does not matter. */
  lemma SwapWithEmpty<T>(w: seq<T>, a: seq<T>, b: seq<T>)
    requires a == [] || b == []
    ensures w + a + b == w + b + a
  {
    if a == [] {
      assert w + a == w;
      assert w + b + a == w + b;
    } else {
      assert w + a + b == w + a;
      assert w + b == w;
    }
  }

  lemma SplitAt<T>(s: seq<T>, i: nat)
    requires i <= |s|
    ensures s[..i] + s[i..] == s
  {
  }

  lemma TakeSnoc<T>(s: seq<T>, i: nat)
    requires i < |s|
    ensures s[..i + 1] == s[..i] + [s[i]]
  {
  }

  /** What follows a prefix in a sequence is the rest of the sequence. */
  lemma RestAfterPrefix<T>(s: seq<T>, prefix: seq<T>, rest: seq<T>)
    requires s == prefix + rest
    ensures rest == s[|prefix|..]
  {
  }

  lemma DropOfInit<T>(s: seq<T>, i: nat)
    requires i < |s|
    ensures s[i..] == Init(s)[i..] + [Last(s)]
    ensures Init(s)[..i] == s[..i]
  {
  }

  /** The concatenation of the inner sequences, left to right. */
  function Flatten<T>(ss: seq<seq<T>>): seq<T>
  {
    if ss == [] then [] else ss[0] + Flatten(ss[1..])
  }

  lemma {:induction false} FlattenAppend<T>(a: seq<seq<T>>, b: seq<seq<T>>)
    ensures Flatten(a + b) == Flatten(a) + Flatten(b)
  {
    if a == [] {
      assert a + b == b;
    } else {
      assert (a + b)[1..] == a[1..] + b;
      FlattenAppend(a[1..], b);
    }
  }

  lemma FlattenSnoc<T>(a: seq<seq<T>>, x: seq<T>)
    ensures Flatten(a + [x]) == Flatten(a) + x
  {
    FlattenAppend(a, [x]);
    assert Flatten([x]) == x + Flatten([x][1..]);
  }

  lemma FlattenInit<T>(ss: seq<seq<T>>)
    requires ss != []
    ensures Flatten(ss) == Flatten(Init(ss)) + Last(ss)
  {
    assert ss == Init(ss) + [Last(ss)];
    FlattenSnoc(Init(ss), Last(ss));
  }
}
