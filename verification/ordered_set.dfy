/** JavaScript's `Set`, which keeps its elements in insertion order, modelled as a
    duplicate-free sequence: `add` appends an element not yet present,
    `new Set(xs)` and `Array.from` keep the first occurrence of each element. */
module OrderedSet {

  /** No element occurs twice. */
  predicate NoDup(s: seq<string>)
  {
    forall i, j :: 0 <= i < j < |s| ==> s[i] != s[j]
  }

  /** `set.add(x)`. */
  function Add(s: seq<string>, x: string): (r: seq<string>)
    ensures x in r && forall y :: y in r <==> y in s || y == x
    ensures NoDup(s) ==> NoDup(r)
  {
    if x in s then s else s + [x]
  }

  /** `xs.forEach(x => set.add(x))`, starting from the set `s`. */
  function AddAll(s: seq<string>, xs: seq<string>): (r: seq<string>)
    decreases |xs|
    ensures forall y :: y in r <==> y in s || y in xs
    ensures NoDup(s) ==> NoDup(r)
  {
    if xs == [] then s else Add(AddAll(s, xs[..|xs| - 1]), xs[|xs| - 1])
  }

  /** `Array.from(new Set(xs))`: each element once, at its first occurrence. */
  function Dedup(xs: seq<string>): (r: seq<string>)
    ensures NoDup(r)
    ensures forall y :: y in r <==> y in xs
  {
    AddAll([], xs)
  }

  /** The elements of `a` that are not in `b`, in the order of `a`. */
  function Minus(a: seq<string>, b: seq<string>): (r: seq<string>)
    decreases |a|
    ensures forall y :: y in r <==> y in a && y !in b
    ensures NoDup(a) ==> NoDup(r)
    ensures |r| <= |a|
  {
    if a == [] then []
    else Minus(a[..|a| - 1], b) + (if a[|a| - 1] in b then [] else [a[|a| - 1]])
  }

  lemma MinusSnoc(a: seq<string>, x: string, b: seq<string>)
    ensures Minus(a + [x], b) == Minus(a, b) + (if x in b then [] else [x])
  {
    assert (a + [x])[..|a|] == a;
  }

  /** Only membership in `b` matters to `Minus(a, b)`. */
  lemma {:induction false} MinusSameMembers(a: seq<string>, b: seq<string>, c: seq<string>)
    requires forall y :: y in b <==> y in c
    ensures Minus(a, b) == Minus(a, c)
    decreases |a|
  {
    if a != [] {
      MinusSameMembers(a[..|a| - 1], b, c);
    }
  }

  /** Removing nothing leaves a sequence as it is. */
  lemma {:induction false} MinusNothing(a: seq<string>)
    ensures Minus(a, []) == a
    decreases |a|
  {
    if a != [] {
      var init, x := a[..|a| - 1], a[|a| - 1];
      MinusNothing(init);
      assert Minus(a, []) == init + [x];
      assert a == init + [x];
    }
  }

  /** Adding the elements of `a` and then of `b` is adding those of `a + b`. */
  lemma {:induction false} AddAllAppend(s: seq<string>, a: seq<string>, b: seq<string>)
    ensures AddAll(s, a + b) == AddAll(AddAll(s, a), b)
    decreases |b|
  {
    if b == [] {
      assert a + b == a;
    } else {
      var b' := b[..|b| - 1];
      assert (a + b)[..|a + b| - 1] == a + b';
      AddAllAppend(s, a, b');
    }
  }

  /** Adding `xs` to `s` appends exactly the new elements of `xs`, each at its first
      occurrence: the old elements keep their places and come first. */
  lemma {:induction false} AddAllIsAppendOfNew(s: seq<string>, xs: seq<string>)
    ensures AddAll(s, xs) == s + Minus(Dedup(xs), s)
    decreases |xs|
  {
    if xs != [] {
      var init, x := xs[..|xs| - 1], xs[|xs| - 1];
      AddAllIsAppendOfNew(s, init);
      var d := Dedup(init);
      var before := AddAll(s, init);
      assert before == s + Minus(d, s);
      assert AddAll(s, xs) == Add(before, x);
      assert Dedup(xs) == Add(d, x);
      if x in d {
        assert x in before;
      } else {
        MinusSnoc(d, x, s);
        if x in s {
          assert x in before;
        } else {
          assert x !in before;
          assert Add(before, x) == s + (Minus(d, s) + [x]);
        }
      }
    }
  }

  /** A duplicate-free sequence is its own deduplication. */
  lemma {:induction false} DedupOfNoDup(xs: seq<string>)
    requires NoDup(xs)
    ensures Dedup(xs) == xs
    decreases |xs|
  {
    if xs != [] {
      var init := xs[..|xs| - 1];
      assert NoDup(init);
      DedupOfNoDup(init);
      assert xs[|xs| - 1] !in init;
      assert xs == init + [xs[|xs| - 1]];
    }
  }

  /** First occurrence wins: the head comes first and later copies of it are dropped. */
  lemma DedupCons(x: string, xs: seq<string>)
    ensures Dedup([x] + xs) == [x] + Minus(Dedup(xs), [x])
  {
    AddAllAppend([], [x], xs);
    assert AddAll([], [x]) == [x] by {
      assert [x][..0] == [];
    }
    AddAllIsAppendOfNew([x], xs);
  }

  /** Deduplicating a concatenation keeps the deduplicated first part as a prefix and
      appends the new elements of the second part in their first-occurrence order. */
  lemma DedupAppend(a: seq<string>, b: seq<string>)
    ensures Dedup(a + b) == Dedup(a) + Minus(Dedup(b), Dedup(a))
  {
    AddAllAppend([], a, b);
    AddAllIsAppendOfNew(Dedup(a), b);
  }

  /** `new Set(xs)`: the elements of `xs` are added one by one. */
  method SetOf(xs: seq<string>) returns (s: seq<string>)
    ensures s == Dedup(xs)
    ensures NoDup(s) && forall y :: y in s <==> y in xs
  {
    s := [];
    for i := 0 to |xs|
      invariant s == AddAll([], xs[..i])
    {
      assert xs[..i + 1][..i] == xs[..i];
      if xs[i] !in s {
        s := s + [xs[i]];
      }
    }
    assert xs[..|xs|] == xs;
  }

  /** `xs.forEach(x => s.add(x))`. */
  method AddEach(s: seq<string>, xs: seq<string>) returns (r: seq<string>)
    ensures r == AddAll(s, xs)
    ensures forall y :: y in r <==> y in s || y in xs
  {
    r := s;
    for i := 0 to |xs|
      invariant r == AddAll(s, xs[..i])
    {
      assert xs[..i + 1][..i] == xs[..i];
      if xs[i] !in r {
        r := r + [xs[i]];
      }
    }
    assert xs[..|xs|] == xs;
  }
}
