/** Whole runs of insertions into a fresh search tree. */
module BstRuns {
  import opened Bst

  /** The values that a fresh tree holds once `xs` have been inserted: what fits, each of them once. */
  ghost function Held(xs: seq<int>): (h: set<int>)
    ensures |h| < MAX_NUM
  {
    if xs == [] then {} else
    var before := Held(xs[..|xs| - 1]);
    if |before| >= MAX_NUM - 1 then before else before + {xs[|xs| - 1]}
  }

  /** What the insertion of `x` into a tree holding `h` returns. */
  ghost function Reply(h: set<int>, x: int): (key: int) {
    if |h| >= MAX_NUM - 1 then -1 else if x in h then -2 else |h|
  }

  ghost predicate Replies(xs: seq<int>, keys: seq<int>) {
    |keys| == |xs| && forall k :: 0 <= k < |xs| ==> keys[k] == Reply(Held(xs[..k]), xs[k])
  }

  lemma PrefixReplies(xs: seq<int>, n: nat)
    requires n <= |xs|
    ensures forall k :: 0 <= k < n ==> xs[..n][..k] == xs[..k]
  {
  }

  /** One more value: what the tree holds then, and what the insertion returned. */
  lemma OneMore(xs: seq<int>, keys: seq<int>, n: nat)
    requires n < |xs| && Replies(xs[..n], keys)
    ensures var h := Held(xs[..n]);
            && Held(xs[..n + 1]) == (if |h| >= MAX_NUM - 1 then h else h + {xs[n]})
            && Replies(xs[..n + 1], keys + [Reply(h, xs[n])])
  {
    hide Reply;
    assert xs[..n + 1][..n] == xs[..n];
    PrefixReplies(xs, n);
    PrefixReplies(xs, n + 1);
  }

  lemma NothingHeld(xs: seq<int>)
    ensures Held(xs[..0]) == {} && Replies(xs[..0], [])
  {
  }

  /** Any sequence of insertions into a fresh tree, duplicates and overflow included: every return value,
      and what the tree holds in the end, which is the data of the first `size` nodes of the array. */
  method InsertAll(xs: seq<int>) returns (t: Arena, keys: seq<int>)
    ensures t.Valid() && t.Contents() == Held(xs) && t.size == |Held(xs)| && Replies(xs, keys)
    ensures forall v :: v in Held(xs) <==> exists k: nat :: k < t.size && t.list[k].data == v
  {
    hide Held, Replies, Arena.Valid, Arena.Contents, Grow;
    t := new Arena();
    keys := [];
    var i := 0;
    NothingHeld(xs);
    while i < |xs|
      invariant 0 <= i <= |xs| && t.Valid() && fresh(t) && fresh(t.list)
      invariant t.Contents() == Held(xs[..i]) && t.size == |Held(xs[..i])| && Replies(xs[..i], keys)
    {
      OneMore(xs, keys, i);
      var key := t.Insert(xs[i]);
      keys := keys + [key];
      i := i + 1;
    }
    assert xs[..i] == xs;
    forall v ensures v in Held(xs) <==> exists k: nat :: k < t.size && t.list[k].data == v {
      t.InArray(v);
    }
  }

  /** The values that were accepted. */
  ghost function Taken(xs: seq<int>, keys: seq<int>): (vs: set<int>)
    requires |keys| == |xs|
  {
    set k | 0 <= k < |xs| && keys[k] >= 0 :: xs[k]
  }

  lemma TakenStep(xs: seq<int>, keys: seq<int>, n: nat)
    requires |keys| == |xs| == n + 1
    ensures Taken(xs, keys) == Taken(xs[..n], keys[..n]) + if keys[n] >= 0 then {xs[n]} else {}
  {
    var before, after := Taken(xs[..n], keys[..n]), Taken(xs, keys);
    forall k | 0 <= k < n && keys[k] >= 0 ensures xs[k] in before {
      assert keys[..n][k] >= 0 && xs[..n][k] == xs[k];
    }
    forall k | 0 <= k < n && keys[..n][k] >= 0 ensures xs[..n][k] in after {
      assert keys[k] >= 0;
    }
  }

  lemma NothingTaken(xs: seq<int>, keys: seq<int>)
    requires xs == keys == []
    ensures Taken(xs, keys) == {}
  {
  }

  /** The tree holds exactly the values that were accepted. */
  lemma {:induction false} HeldIsTaken(xs: seq<int>, keys: seq<int>)
    requires Replies(xs, keys)
    ensures Held(xs) == Taken(xs, keys)
  {
    hide Taken;
    if xs == [] {
      NothingTaken(xs, keys);
    } else {
      var n := |xs| - 1;
      PrefixReplies(xs, n);
      HeldIsTaken(xs[..n], keys[..n]);
      TakenStep(xs, keys, n);
      assert keys[n] == Reply(Held(xs[..n]), xs[n]);
    }
  }

  lemma {:induction false} HeldGrows(xs: seq<int>, n: nat)
    requires n <= |xs|
    ensures Held(xs[..n]) <= Held(xs)
  {
    if n == |xs| {
      assert xs[..n] == xs;
    } else {
      HeldGrows(xs[..|xs| - 1], n);
      assert xs[..|xs| - 1][..n] == xs[..n];
    }
  }

  lemma Smaller(a: set<int>, b: set<int>, x: int)
    requires a <= b && x in b && x !in a
    ensures |a| < |b|
  {
    assert b == a + (b - a) && |b - a| > 0;
  }

  lemma SubsetSize(a: set<int>, b: set<int>)
    requires a <= b
    ensures |a| <= |b|
  {
    assert b == a + (b - a);
  }

  /** So no value is accepted twice, the keys given out grow one by one, -2 is the answer to a value
      accepted before, and -1 means that the tree is full and stays so. */
  lemma RepliesMean(xs: seq<int>, keys: seq<int>, k: nat)
    requires Replies(xs, keys) && k < |xs|
    ensures keys[k] in {-1, -2} || keys[k] == |Taken(xs[..k], keys[..k])| < |Held(xs)|
    ensures forall j :: 0 <= j < k && keys[j] >= 0 && keys[k] >= 0 ==> xs[j] != xs[k]
    ensures keys[k] == -2 ==> exists j :: 0 <= j < k && keys[j] >= 0 && xs[j] == xs[k]
    ensures keys[k] == -1 ==> |Held(xs)| == 99_999
  {
    hide Held;
    var before := xs[..k];
    PrefixReplies(xs, k);
    HeldIsTaken(before, keys[..k]);
    HeldIsTaken(xs, keys);
    HeldGrows(xs, k);
    assert keys[k] == Reply(Held(before), xs[k]);
    if keys[k] >= 0 {
      assert xs[k] in Taken(xs, keys);
      Smaller(Held(before), Held(xs), xs[k]);
      forall j | 0 <= j < k && keys[j] >= 0 ensures xs[j] != xs[k] {
        assert before[j] in Taken(before, keys[..k]);
      }
    } else if keys[k] == -1 {
      SubsetSize(Held(before), Held(xs));
    }
  }
}
