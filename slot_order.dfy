/** The slot dictionary `videoStackOrder` of js/script.js as a value: a map
    from slot to video stack. The page keeps, beside it, each stack's own
    `style.order` equal to its key (`MultiView.Page.Placement`); here are the
    two operations on the dictionary and their properties. */
module SlotOrder {

  /** The keys are exactly 0 .. |m|-1. */
  ghost predicate Dense<T>(m: map<int, T>)
  {
    forall k :: k in m <==> 0 <= k < |m|
  }

  /** Pigeonhole: distinct values drawn from `pool` are no more than it holds. */
  lemma {:induction false} DistinctWithin(ks: seq<int>, pool: set<int>)
    requires forall j :: 0 <= j < |ks| ==> ks[j] in pool
    requires forall i, j :: 0 <= i < j < |ks| ==> ks[i] != ks[j]
    ensures |ks| <= |pool|
  {
    if ks != [] {
      var t := ks[1..];
      forall j | 0 <= j < |t| ensures t[j] in pool - {ks[0]} {
        assert t[j] == ks[j + 1];
      }
      DistinctWithin(t, pool - {ks[0]});
    }
  }

  /** N distinct keys of a dictionary with keys 0 .. N-1 are all of its keys. */
  lemma DistinctKeysCoverAll<T>(m: map<int, T>, ks: seq<int>)
    requires Dense(m) && |ks| == |m|
    requires forall j :: 0 <= j < |ks| ==> ks[j] in m
    requires forall i, j :: 0 <= i < j < |ks| ==> ks[i] != ks[j]
    ensures forall k :: k in m ==> k in ks
  {
    forall k | k in m ensures k in ks {
      if k !in ks {
        assert |m.Keys - {k}| == |m| - 1;
        DistinctWithin(ks, m.Keys - {k});
      }
    }
  }

  // ---------------------------------------------------------------------
  // swapGridElementOrders
  // ---------------------------------------------------------------------

  /** Whether `swapGridElementOrders(a, b)` changes anything: the slots
      differ and both are populated. */
  predicate SwapApplies<T>(m: map<int, T>, a: int, b: int)
  {
    a != b && a in m && b in m
  }

  /** The dictionary after `swapGridElementOrders(a, b)`: the entries of `a`
      and `b` exchanged, or the same dictionary when the slots are equal or
      one of them is unpopulated. */
  function Swap<T>(m: map<int, T>, a: int, b: int): (r: map<int, T>)
    ensures r.Keys == m.Keys
    ensures !SwapApplies(m, a, b) ==> r == m
    ensures SwapApplies(m, a, b) ==> r[a] == m[b] && r[b] == m[a]
    ensures forall k :: k in m && k != a && k != b ==> r[k] == m[k]
  {
    if SwapApplies(m, a, b) then m[a := m[b]][b := m[a]] else m
  }

  /** Swapping the same two slots twice restores the original dictionary. */
  lemma SwapTwice<T>(m: map<int, T>, a: int, b: int)
    ensures Swap(Swap(m, a, b), a, b) == m
  {
    if SwapApplies(m, a, b) {
      var r := Swap(m, a, b);
      assert SwapApplies(r, a, b);
      assert Swap(r, a, b) == m;
    }
  }

  /** A swap keeps the keys exactly 0 .. N-1. */
  lemma SwapKeepsSlots<T>(m: map<int, T>, a: int, b: int)
    requires Dense(m)
    ensures Dense(Swap(m, a, b)) && |Swap(m, a, b)| == |m|
  {
    assert Swap(m, a, b).Keys == m.Keys;
  }

  // ---------------------------------------------------------------------
  // appendVideoStacksforIds (the dictionary part)
  // ---------------------------------------------------------------------

  /** The new stacks `xs` stored under keys n, n+1, ... in input order. */
  function Append<T>(m: map<int, T>, n: int, xs: seq<T>): (r: map<int, T>)
    decreases |xs|
  {
    if xs == [] then m else Append(m[n := xs[0]], n + 1, xs[1..])
  }

  /** What `Append` stores, for any dictionary and any first key: the keys
      are the old ones and n .. n+k-1, new stack i is under n+i, and every
      other entry is kept. */
  lemma {:induction false} AppendEntries<T>(m: map<int, T>, n: int, xs: seq<T>)
    decreases |xs|
    ensures var r := Append(m, n, xs);
            && (forall k :: k in r <==> k in m || n <= k < n + |xs|)
            && (forall i :: 0 <= i < |xs| ==> r[n + i] == xs[i])
            && (forall k :: k in m && !(n <= k < n + |xs|) ==> r[k] == m[k])
  {
    if xs != [] {
      var m' := m[n := xs[0]];
      AppendEntries(m', n + 1, xs[1..]);
      var r := Append(m, n, xs);
      assert r == Append(m', n + 1, xs[1..]);
      forall i | 0 <= i < |xs| ensures n + i in r && r[n + i] == xs[i] {
        if i == 0 {
          assert n in m' && r[n] == m'[n];
        } else {
          assert r[(n + 1) + (i - 1)] == xs[1..][i - 1];
        }
      }
    }
  }

  /** Appending one more stack after a run of appends stores it next. */
  lemma {:induction false} AppendSnoc<T>(m: map<int, T>, n: int, xs: seq<T>, x: T)
    decreases |xs|
    ensures Append(m, n, xs + [x]) == Append(m, n, xs)[n + |xs| := x]
  {
    if xs == [] {
      assert [x][1..] == [];
    } else {
      assert (xs + [x])[0] == xs[0];
      assert (xs + [x])[1..] == xs[1..] + [x];
      AppendSnoc(m[n := xs[0]], n + 1, xs[1..], x);
    }
  }

  /** Storing one more entry right after the keys 0 .. N-1 gives the keys 0 .. N. */
  lemma DenseExtend<T>(m: map<int, T>, x: T)
    requires Dense(m)
    ensures Dense(m[|m| := x]) && |m[|m| := x]| == |m| + 1
  {
    assert |m| !in m;
  }

  /** Appending k stacks to a dictionary with keys 0 .. N-1 stores them under
      N .. N+k-1 in input order, leaves the entries 0 .. N-1 as they were, and
      the keys are then exactly 0 .. N+k-1. */
  lemma {:induction false} AppendSlots<T>(m: map<int, T>, xs: seq<T>)
    requires Dense(m)
    decreases |xs|
    ensures var r := Append(m, |m|, xs);
            && Dense(r)
            && |r| == |m| + |xs|
            && (forall k :: 0 <= k < |m| ==> r[k] == m[k])
            && (forall i :: 0 <= i < |xs| ==> r[|m| + i] == xs[i])
  {
    var n := |m|;
    if xs != [] {
      var m' := m[n := xs[0]];
      DenseExtend(m, xs[0]);
      AppendSlots(m', xs[1..]);
      var r := Append(m, n, xs);
      forall i | 0 <= i < |xs| ensures r[n + i] == xs[i] {
        if i > 0 { assert r[(n + 1) + (i - 1)] == xs[1..][i - 1]; }
      }
    }
  }
}
