/** Facts about sequences and multisets. */
module Collections {

  ghost predicate Distinct<T>(items: seq<T>) {
    forall i, j | 0 <= i < j < |items| :: items[i] != items[j]
  }

  lemma DistinctConcat<T>(front: seq<T>, back: seq<T>)
    requires Distinct(front) && Distinct(back)
    requires forall item | item in front :: item !in back
    ensures Distinct(front + back)
  {
    var all := front + back;
    forall i, j | 0 <= i < j < |all| ensures all[i] != all[j] {
      if i < |front| <= j {
        assert front[i] in front && back[j - |front|] in back;
      }
    }
  }

  ghost function Pick<T>(items: multiset<T>): (item: T)
    requires items != multiset{}
    ensures item in items
  {
    var item :| item in items;
    item
  }

  ghost function Image<T, U>(items: multiset<T>, f: T -> U): multiset<U>
    decreases |items|
  {
    if items == multiset{} then multiset{}
    else
      var item := Pick(items);
      Image(items - multiset{item}, f) + multiset{f(item)}
  }

  lemma {:induction false} ImageAdd<T, U>(items: multiset<T>, item: T, f: T -> U)
    ensures Image(items + multiset{item}, f) == Image(items, f) + multiset{f(item)}
    decreases |items|
  {
    var all := items + multiset{item};
    var picked := Pick(all);
    if picked == item {
      assert all - multiset{item} == items;
    } else {
      var rest := items - multiset{picked};
      assert all - multiset{picked} == rest + multiset{item};
      assert items == rest + multiset{picked};
      ImageAdd(rest, item, f);
      ImageAdd(rest, picked, f);
    }
  }

  lemma Cancel<T>(one: multiset<T>, two: multiset<T>, common: multiset<T>)
    requires one + common == two + common
    ensures one == two
  {
    forall item ensures one[item] == two[item] {
      assert (one + common)[item] == (two + common)[item];
    }
  }

  /** Adding an item to each of two sums keeps them equal, or makes them so,
      exactly when it is the same item. */
  lemma OneMoreEach<T>(a: multiset<T>, f: multiset<T>, found: T, b: multiset<T>, l: multiset<T>, left: T)
    ensures a + f == b + l ==> (a + (f + multiset{found}) == b + (l + multiset{left}) <==> found == left)
    ensures a + (f + multiset{found}) == b + (l + multiset{left}) ==> (a + f == b + l <==> found == left)
  {
    var one, two := a + f, b + l;
    assert a + (f + multiset{found}) == one + multiset{found};
    assert b + (l + multiset{left}) == two + multiset{left};
    OneMore(one, found, two, left);
  }

  lemma OneMore<T>(one: multiset<T>, found: T, two: multiset<T>, left: T)
    ensures one == two ==> (one + multiset{found} == two + multiset{left} <==> found == left)
    ensures one + multiset{found} == two + multiset{left} ==> (one == two <==> found == left)
  {
    if one == two && one + multiset{found} == two + multiset{left} {
      assert (one + multiset{found})[found] == (two + multiset{left})[found];
    }
    if found == left && one + multiset{found} == two + multiset{left} { Cancel(one, two, multiset{found}); }
  }

  /** Two balances against one `start`. */
  lemma CrossCancel<T>(here: T, f1: multiset<T>, l1: multiset<T>, there: T, f2: multiset<T>, l2: multiset<T>,
                       start: multiset<T>)
    requires multiset{here} + f1 == start + l1 && multiset{there} + f2 == start + l2
    ensures here == there <==> f1 + l2 == f2 + l1
  {
    var one, two := f1 + l2, f2 + l1;
    assert one + multiset{here} + start == (start + l1) + (start + l2) by {
      assert one + multiset{here} == (multiset{here} + f1) + l2;
    }
    assert two + multiset{there} + start == (start + l1) + (start + l2) by {
      assert two + multiset{there} == (multiset{there} + f2) + l1;
    }
    Cancel(one + multiset{here}, two + multiset{there}, start);
    OneMore(one, here, two, there);
  }
}
