/** Chat messages as the server returns them, and the ordering that
    `fetch_messages` imposes on them: a stable sort on the raw `ts` string,
    where a message without `ts` sorts as the empty string. */
module Messages {
  import opened Wrappers
  import opened Text

  /** A JSON scalar, with Python's truthiness (`if v:`) given by `Truthy`. */
  datatype Value = Null | Bool(b: bool) | Int(i: int) | Str(s: string)

  predicate Truthy(v: Value) {
    match v
    case Null => false
    case Bool(b) => b
    case Int(i) => i != 0
    case Str(s) => s != []
  }

  /** One message object; `None` stands for a key the object does not have. */
  datatype Msg = Msg(id: Option<Value>, ts: Option<string>, pseudo: Option<Value>, message: Option<Value>)

  /** The sort key `m.get('ts', '')`. */
  function Key(m: Msg): string {
    m.ts.GetOr("")
  }

  /** Non-decreasing by key, neighbour by neighbour. */
  predicate Sorted(s: seq<Msg>) {
    forall k :: 0 < k < |s| ==> LexLe(Key(s[k - 1]), Key(s[k]))
  }

  /** The messages of `s` whose key is `key`, in their order in `s`. */
  function KeyFilter(s: seq<Msg>, key: string): (r: seq<Msg>)
    ensures |r| <= |s|
    ensures forall m :: m in r ==> m in s && Key(m) == key
  {
    if s == [] then []
    else (if Key(s[0]) == key then [s[0]] else []) + KeyFilter(s[1..], key)
  }

  /** `r` is `s` with some elements deleted and the rest in their order. */
  predicate IsSubsequence(r: seq<Msg>, s: seq<Msg>)
    decreases |s|
  {
    r == [] ||
    (s != [] && (if r[0] == s[0] then IsSubsequence(r[1..], s[1..]) else IsSubsequence(r, s[1..])))
  }

  /** The messages of one key are a subsequence of the list that keeps
      every message of that key, each as many times as the list holds it. */
  lemma {:induction false} KeyFilterExact(s: seq<Msg>, key: string)
    ensures IsSubsequence(KeyFilter(s, key), s)
    ensures forall m :: m in s && Key(m) == key ==> m in KeyFilter(s, key)
    ensures forall m :: Key(m) == key ==> multiset(KeyFilter(s, key))[m] == multiset(s)[m]
    decreases |s|
  {
    if s != [] {
      KeyFilterExact(s[1..], key);
      var rest := KeyFilter(s[1..], key);
      assert s == [s[0]] + s[1..];
      if Key(s[0]) == key {
        assert KeyFilter(s, key) == [s[0]] + rest;
        assert ([s[0]] + rest)[1..] == rest;
      } else {
        assert KeyFilter(s, key) == rest;
        assert rest != [] ==> rest[0] != s[0];
      }
    }
  }

  /** `s` and `t` hold the same messages of every key in the same order:
      for sorted sequences, a stable reordering of one another. */
  ghost predicate SameKeyOrder(s: seq<Msg>, t: seq<Msg>) {
    forall key :: KeyFilter(s, key) == KeyFilter(t, key)
  }

  /** Places `x` before the first element whose key is not smaller. */
  function Insert(x: Msg, t: seq<Msg>): seq<Msg> {
    if t == [] || LexLe(Key(x), Key(t[0])) then [x] + t
    else [t[0]] + Insert(x, t[1..])
  }

  /** Stable insertion sort by key: the order `list.sort(key=...)` produces. */
  function SortByTs(s: seq<Msg>): (r: seq<Msg>)
    ensures Sorted(r)
    ensures SameKeyOrder(r, s)
    ensures multiset(r) == multiset(s)
  {
    if s == [] then []
    else
      var t := SortByTs(s[1..]);
      InsertSorted(s[0], t);
      assert SameKeyOrder(Insert(s[0], t), s) by {
        forall key ensures KeyFilter(Insert(s[0], t), key) == KeyFilter(s, key) {
          InsertKeyFilter(s[0], t, key);
          assert KeyFilter(s, key) == (if Key(s[0]) == key then [s[0]] else []) + KeyFilter(s[1..], key);
        }
      }
      SameKeyOrderPermutation(Insert(s[0], t), s);
      Insert(s[0], t)
  }

  /** Two messages out of order by `ts` are exchanged. */
  lemma SortTwo(m1: Msg, m2: Msg)
    requires !LexLe(Key(m1), Key(m2))
    ensures SortByTs([m1, m2]) == [m2, m1]
  {
  }

  lemma {:induction false} InsertHead(x: Msg, t: seq<Msg>)
    ensures |Insert(x, t)| == |t| + 1
    ensures Insert(x, t)[0] == x || (t != [] && Insert(x, t)[0] == t[0])
  {
    if t != [] && !LexLe(Key(x), Key(t[0])) {
      InsertHead(x, t[1..]);
    }
  }

  lemma {:induction false} InsertSorted(x: Msg, t: seq<Msg>)
    requires Sorted(t)
    ensures Sorted(Insert(x, t))
  {
    if t != [] && !LexLe(Key(x), Key(t[0])) {
      var rest := Insert(x, t[1..]);
      InsertSorted(x, t[1..]);
      InsertHead(x, t[1..]);
      LexLeTotal(Key(x), Key(t[0]));
      assert LexLe(Key(t[0]), Key(rest[0]));
      assert Insert(x, t) == [t[0]] + rest;
    }
  }

  lemma {:induction false} KeyFilterAppend(a: seq<Msg>, b: seq<Msg>, key: string)
    ensures KeyFilter(a + b, key) == KeyFilter(a, key) + KeyFilter(b, key)
  {
    if a == [] {
      assert a + b == b;
    } else {
      assert (a + b)[1..] == a[1..] + b;
      KeyFilterAppend(a[1..], b, key);
    }
  }

  /** `Insert` puts `x` ahead of every element of `t` that has its key. */
  lemma {:induction false} InsertKeyFilter(x: Msg, t: seq<Msg>, key: string)
    ensures KeyFilter(Insert(x, t), key) == (if Key(x) == key then [x] else []) + KeyFilter(t, key)
  {
    if t == [] || LexLe(Key(x), Key(t[0])) {
      KeyFilterAppend([x], t, key);
    } else {
      InsertKeyFilter(x, t[1..], key);
      LexLeReflexive(Key(x));
      KeyFilterAppend([t[0]], Insert(x, t[1..]), key);
      KeyFilterAppend([t[0]], t[1..], key);
      assert t == [t[0]] + t[1..];
    }
  }

  /** The number of copies of `m` in `s` equals that in the messages of its key. */
  lemma {:induction false} CountInKeyFilter(s: seq<Msg>, m: Msg)
    ensures multiset(s)[m] == multiset(KeyFilter(s, Key(m)))[m]
  {
    if s != [] {
      CountInKeyFilter(s[1..], m);
      assert s == [s[0]] + s[1..];
    }
  }

  /** Same order per key implies the same messages overall. */
  lemma SameKeyOrderPermutation(s: seq<Msg>, t: seq<Msg>)
    requires SameKeyOrder(s, t)
    ensures multiset(s) == multiset(t)
  {
    forall m ensures multiset(s)[m] == multiset(t)[m] {
      CountInKeyFilter(s, m);
      CountInKeyFilter(t, m);
    }
  }

  /** In a sorted sequence the first key is the smallest. */
  lemma {:induction false} SortedHeadIsLeast(s: seq<Msg>, j: nat)
    requires Sorted(s) && j < |s|
    ensures LexLe(Key(s[0]), Key(s[j]))
  {
    if j == 0 {
      LexLeReflexive(Key(s[0]));
    } else {
      SortedHeadIsLeast(s, j - 1);
      LexLeTransitive(Key(s[0]), Key(s[j - 1]), Key(s[j]));
    }
  }

  /** In a sorted sequence the last key is the largest. */
  lemma {:induction false} SortedLastIsGreatest(s: seq<Msg>, j: nat)
    requires Sorted(s) && j < |s|
    ensures LexLe(Key(s[j]), Key(s[|s| - 1]))
    decreases |s| - j
  {
    if j == |s| - 1 {
      LexLeReflexive(Key(s[j]));
    } else {
      SortedLastIsGreatest(s, j + 1);
      LexLeTransitive(Key(s[j]), Key(s[j + 1]), Key(s[|s| - 1]));
    }
  }

  /** A sequence that holds a message of key `key` has a non-empty filter for it. */
  lemma {:induction false} KeyFilterNonEmpty(s: seq<Msg>, j: nat)
    requires j < |s|
    ensures KeyFilter(s, Key(s[j])) != []
  {
    if j > 0 {
      KeyFilterNonEmpty(s[1..], j - 1);
    }
  }

  /** Two sorted, non-empty sequences with the same order per key start
      with the same message. */
  lemma SortedHeadsAgree(t: seq<Msg>, u: seq<Msg>)
    requires Sorted(t) && Sorted(u) && SameKeyOrder(t, u) && t != [] && u != []
    ensures t[0] == u[0]
  {
    var k, k' := Key(t[0]), Key(u[0]);
    // t[0] has key k, so u holds a message of key k, and u[0] is no larger
    assert KeyFilter(t, k) == [t[0]] + KeyFilter(t[1..], k);
    assert t[0] in KeyFilter(u, k);
    var j :| 0 <= j < |u| && u[j] == t[0];
    SortedHeadIsLeast(u, j);
    assert KeyFilter(u, k') == [u[0]] + KeyFilter(u[1..], k');
    assert u[0] in KeyFilter(t, k');
    var i :| 0 <= i < |t| && t[i] == u[0];
    SortedHeadIsLeast(t, i);
    LexLeAntisymmetric(k, k');
    // so both heads lead the filter of the one key they share
    assert t[0] == KeyFilter(t, k)[0] == KeyFilter(u, k)[0] == u[0];
  }

  /** Dropping equal heads keeps the order per key. */
  lemma SameKeyOrderTails(t: seq<Msg>, u: seq<Msg>)
    requires SameKeyOrder(t, u) && t != [] && u != [] && t[0] == u[0]
    ensures SameKeyOrder(t[1..], u[1..])
  {
    forall key ensures KeyFilter(t[1..], key) == KeyFilter(u[1..], key) {
      var head := if Key(t[0]) == key then [t[0]] else [];
      assert KeyFilter(t, key) == head + KeyFilter(t[1..], key);
      assert KeyFilter(u, key) == head + KeyFilter(u[1..], key);
      assert KeyFilter(t, key) == KeyFilter(u, key);
      assert KeyFilter(t[1..], key) == KeyFilter(t, key)[|head|..];
      assert KeyFilter(u[1..], key) == KeyFilter(u, key)[|head|..];
    }
  }

  /** Sorting by key and keeping the order within each key leaves no choice:
      two sorted sequences with the same order per key are equal. */
  lemma {:induction false} SortedUnique(t: seq<Msg>, u: seq<Msg>)
    requires Sorted(t) && Sorted(u) && SameKeyOrder(t, u)
    ensures t == u
    decreases |t|
  {
    if t == [] {
      if u != [] {
        KeyFilterNonEmpty(u, 0);
      }
    } else if u == [] {
      KeyFilterNonEmpty(t, 0);
    } else {
      SortedHeadsAgree(t, u);
      SameKeyOrderTails(t, u);
      assert Sorted(t[1..]) && Sorted(u[1..]);
      SortedUnique(t[1..], u[1..]);
      assert t == [t[0]] + t[1..] && u == [u[0]] + u[1..];
    }
  }

  /** Exchanging two neighbours of different keys keeps the order within every key. */
  lemma SwapKeepsKeyOrder(s: seq<Msg>, j: nat)
    requires 0 < j < |s| && Key(s[j - 1]) != Key(s[j])
    ensures SameKeyOrder(s[..j - 1] + [s[j], s[j - 1]] + s[j + 1..], s)
  {
    var pre, x, y, post := s[..j - 1], s[j - 1], s[j], s[j + 1..];
    assert s == pre + [x, y] + post;
    forall key ensures KeyFilter(pre + [y, x] + post, key) == KeyFilter(pre + [x, y] + post, key) {
      assert KeyFilter([y, x], key) == KeyFilter([x, y], key) by {
        assert [y, x][1..] == [x] && [x, y][1..] == [y];
        assert [x][1..] == [] && [y][1..] == [];
      }
      KeyFilterAppend(pre + [y, x], post, key);
      KeyFilterAppend(pre, [y, x], key);
      KeyFilterAppend(pre + [x, y], post, key);
      KeyFilterAppend(pre, [x, y], key);
    }
  }

  method SwapAdjacent(a: array<Msg>, j: int)
    requires 0 < j < a.Length && Key(a[j - 1]) != Key(a[j])
    modifies a
    ensures a[..] == old(a[..j - 1] + [a[j], a[j - 1]] + a[j + 1..])
    ensures SameKeyOrder(a[..], old(a[..]))
  {
    SwapKeepsKeyOrder(a[..], j);
    a[j - 1], a[j] := a[j], a[j - 1];
  }

  /** `list.sort(key=lambda m: m.get('ts', ''))` on the decoded message list:
      an insertion sort by exchanges of neighbours, which never passes one
      message over another of the same key. */
  method SortInPlace(a: array<Msg>)
    modifies a
    ensures a[..] == SortByTs(old(a[..]))
  {
    var i := 0;
    while i < a.Length
      invariant 0 <= i <= a.Length
      invariant Sorted(a[..i])
      invariant SameKeyOrder(a[..], old(a[..]))
    {
      var j := i;
      while j > 0 && !LexLe(Key(a[j - 1]), Key(a[j]))
        invariant 0 <= j <= i
        invariant forall k :: 0 < k <= i && k != j && k != j + 1 ==> LexLe(Key(a[k - 1]), Key(a[k]))
        invariant 0 < j < i ==> LexLe(Key(a[j - 1]), Key(a[j + 1]))
        invariant j < i ==> !LexLe(Key(a[j + 1]), Key(a[j]))
        invariant SameKeyOrder(a[..], old(a[..]))
      {
        LexLeReflexive(Key(a[j]));
        SwapAdjacent(a, j);
        j := j - 1;
      }
      if j < i {
        LexLeTotal(Key(a[j]), Key(a[j + 1]));
      }
      i := i + 1;
    }
    assert a[..a.Length] == a[..];
    SortedUnique(a[..], SortByTs(old(a[..])));
  }
}
