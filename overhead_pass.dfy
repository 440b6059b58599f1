/**
 * The bookkeeping behind the single pass of ext4_num_overhead_clusters,
 * stated over sets of cluster numbers alone, apart from any file-system
 * geometry.
 */
module OverheadPass {
  import opened Wrappers

  /*
   * The single pass of ext4_num_overhead_clusters keeps a running count
   * `num`, the block- and inode-bitmap clusters `bc`/`ic` it found beyond the
   * counted prefix and left to be added at the end, and the last inode-table
   * cluster `tc` it found beyond the counted prefix.  The lemmas below are
   * about that state alone; `seen` is the set of clusters the pass has
   * looked at and `last` the last inode-table cluster it looked at once `tc`
   * is set.
   */

  /** Clusters 0 .. n - 1. */
  function RangeSet(n: nat): (s: set<nat>)
    ensures forall x: nat :: x in s <==> x < n
  {
    if n == 0 then {} else RangeSet(n - 1) + {n - 1}
  }

  lemma {:induction false} RangeSetSize(n: nat)
    ensures |RangeSet(n)| == n
  {
    if n > 0 {
      RangeSetSize(n - 1);
      AddNew(RangeSet(n - 1), n - 1);
    }
  }

  function OptSet(o: Option<nat>): set<nat>
  {
    if o.Some? then {o.value} else {}
  }

  /** The clusters named in cs (None names none). */
  function SetOf(cs: seq<Option<nat>>): (s: set<nat>)
    ensures |s| <= |cs|
  {
    if |cs| == 0 then {}
    else
      var s := SetOf(cs[..|cs| - 1]);
      UnionSize(s, OptSet(cs[|cs| - 1]));
      s + OptSet(cs[|cs| - 1])
  }

  lemma SetOfStep(cs: seq<Option<nat>>, i: nat)
    requires i < |cs|
    ensures SetOf(cs[..i + 1]) == SetOf(cs[..i]) + OptSet(cs[i])
  {
    assert cs[..i + 1][..i] == cs[..i];
  }

  /** A cluster is in SetOf(cs) exactly when some entry of cs names it. */
  lemma {:induction false} SetOfMember(cs: seq<Option<nat>>, c: nat)
    ensures c in SetOf(cs) <==> exists j :: 0 <= j < |cs| && cs[j] == Some(c)
  {
    if |cs| > 0 {
      var p := cs[..|cs| - 1];
      SetOfMember(p, c);
      if c in SetOf(p) {
        var j :| 0 <= j < |p| && p[j] == Some(c);
        assert cs[j] == Some(c);
      }
      if exists j :: 0 <= j < |cs| && cs[j] == Some(c) {
        var j :| 0 <= j < |cs| && cs[j] == Some(c);
        if j < |p| {
          assert p[j] == Some(c);
        }
      }
    }
  }

  /** The clusters named in cs never decrease along cs. */
  predicate Ascending(cs: seq<Option<nat>>)
  {
    forall j, k :: 0 <= j <= k < |cs| && cs[j].Some? && cs[k].Some? ==> cs[j].value <= cs[k].value
  }

  /** Adding a new element grows a set by one. */
  lemma AddNew(s: set<nat>, c: nat)
    requires c !in s
    ensures |s + {c}| == |s| + 1
  {
  }

  /** Adding an element already present changes nothing. */
  lemma AddOld(s: set<nat>, c: nat)
    requires c in s
    ensures s + {c} == s
  {
  }

  /** Adding what the next block contributes to both sides of an equation between seen clusters. */
  lemma ExtendSeen(seen: set<nat>, prefix: set<nat>, t: set<nat>, t': set<nat>, f: set<nat>)
    requires seen == prefix + t && t' == t + f
    ensures seen + f == prefix + t'
  {
  }

  /** A set is at least as large as any of its parts and at most the sum of its parts. */
  lemma UnionSize(a: set<nat>, b: set<nat>)
    ensures |a| <= |a + b| <= |a| + |b|
    ensures |b| <= |a + b|
  {
    assert a + b == a + (b - a);
    assert a * (b - a) == {};
    assert a + b == b + (a - b);
    assert b * (a - b) == {};
  }

  function Pending(bc: Option<nat>, ic: Option<nat>): set<nat>
  {
    OptSet(bc) + OptSet(ic)
  }

  function Count(o: Option<nat>): nat
  {
    if o.Some? then 1 else 0
  }

  /**
   * Until an inode-table cluster is left beyond the prefix, the clusters
   * seen are the prefix 0 .. num - 1 and the pending bitmap clusters;
   * afterwards every cluster seen is at most `last` or pending.  Either way
   * the final count num + pending is the number of clusters seen, plus one
   * when both bitmaps are pending in the same cluster.
   */
  ghost predicate Tally(seen: set<nat>, num: nat, bc: Option<nat>, ic: Option<nat>, tc: Option<nat>, last: nat)
  {
    var pending := Pending(bc, ic);
    && pending <= seen
    && num + Count(bc) + Count(ic) == |seen| + (if bc.Some? && bc == ic then 1 else 0)
    && (tc.None? ==>
          && (forall x: nat :: x in seen <==> x < num || x in pending)
          && (forall p :: p in pending ==> p >= num))
    && (tc.Some? ==>
          && last in seen
          && num <= last + 1
          && (forall x :: x in seen ==> x <= last || x in pending)
          && (last < num || tc == Some(last) || last in pending)
          && tc.value <= last)
  }

  /** How one bitmap's cluster c (None: the bitmap is outside the group) moves the pass on. */
  predicate BitmapPlaced(num: nat, c: Option<nat>, num': nat, pend: Option<nat>)
  {
    if c.None? || c.value < num then num' == num && pend.None?
    else if c.value == num then num' == num + 1 && pend.None?
    else num' == num && pend == c
  }

  /**
   * After both bitmaps, the pass is in a tally state over the base clusters
   * and the bitmap clusters, and both bitmaps are pending in one cluster
   * exactly when they share a cluster beyond the base clusters.
   */
  lemma BitmapTally(base: nat, b: Option<nat>, i: Option<nat>, num1: nat, bc: Option<nat>, num2: nat, ic: Option<nat>)
    requires BitmapPlaced(base, b, num1, bc) && BitmapPlaced(num1, i, num2, ic)
    ensures Tally(RangeSet(base) + OptSet(b) + OptSet(i), num2, bc, ic, None, 0)
    ensures (bc.Some? && bc == ic) <==> (b.Some? && b == i && b.value > base)
  {
    TallyStart(base);
    var s1 := RangeSet(base) + OptSet(b);
    BitmapStep(RangeSet(base), base, None, b, num1, bc);
    assert Pending(bc, None) == OptSet(bc);
    BitmapStep2(s1, num1, bc, i, num2, ic);
  }

  lemma TallyStart(base: nat)
    ensures Tally(RangeSet(base), base, None, None, None, 0)
  {
    RangeSetSize(base);
    assert Pending(None, None) == {};
  }

  /** The block bitmap's step keeps the tally. */
  lemma BitmapStep(seen: set<nat>, num: nat, none: Option<nat>, b: Option<nat>, num1: nat, bc: Option<nat>)
    requires none.None? && Tally(seen, num, none, none, none, 0) && BitmapPlaced(num, b, num1, bc)
    ensures Tally(seen + OptSet(b), num1, bc, none, none, 0)
    ensures bc.Some? ==> bc.value > num1
    ensures bc.Some? <==> b.Some? && b.value > num
  {
    assert Pending(none, none) == {};
    if b.Some? && b.value == num {
      AddNew(seen, num);
    } else if b.Some? && b.value > num {
      assert Pending(bc, none) == {b.value};
      AddNew(seen, b.value);
    } else {
      assert seen + OptSet(b) == seen;
    }
  }

  /** The inode bitmap's step keeps the tally. */
  lemma BitmapStep2(seen: set<nat>, num: nat, bc: Option<nat>, i: Option<nat>, num2: nat, ic: Option<nat>)
    requires Tally(seen, num, bc, None, None, 0) && BitmapPlaced(num, i, num2, ic)
    requires bc.Some? ==> bc.value > num
    ensures Tally(seen + OptSet(i), num2, bc, ic, None, 0)
    ensures ic.Some? <==> i.Some? && i.value > num
  {
    if i.Some? && i.value == num {
      InodeBitmapExtends(seen, num, bc);
    } else if i.Some? && i.value > num {
      InodeBitmapPends(seen, num, bc, i.value);
    } else {
      assert seen + OptSet(i) == seen;
    }
  }

  /** An inode-bitmap cluster right after the counted prefix extends it. */
  lemma InodeBitmapExtends(seen: set<nat>, num: nat, bc: Option<nat>)
    requires Tally(seen, num, bc, None, None, 0)
    requires bc.Some? ==> bc.value > num
    ensures Tally(seen + {num}, num + 1, bc, None, None, 0)
  {
    assert Pending(bc, None) == OptSet(bc);
    AddNew(seen, num);
  }

  /** An inode-bitmap cluster beyond the counted prefix is kept aside. */
  lemma InodeBitmapPends(seen: set<nat>, num: nat, bc: Option<nat>, c: nat)
    requires Tally(seen, num, bc, None, None, 0)
    requires bc.Some? ==> bc.value > num
    requires c > num
    ensures Tally(seen + {c}, num, bc, Some(c), None, 0)
  {
    assert Pending(bc, None) == OptSet(bc);
    assert Pending(bc, Some(c)) == OptSet(bc) + {c};
    if bc != Some(c) {
      AddNew(seen, c);
    } else {
      AddOld(seen, c);
    }
  }

  /** How one inode-table cluster c moves the pass on. */
  predicate TablePlaced(num: nat, bc: Option<nat>, ic: Option<nat>, tc: Option<nat>, c: nat, num': nat, tc': Option<nat>)
  {
    if c < num || Some(c) == ic || Some(c) == bc || Some(c) == tc then num' == num && tc' == tc
    else if c == num then num' == num + 1 && tc' == tc
    else num' == num + 1 && tc' == Some(c)
  }

  /**
   * An inode-table cluster no smaller than the last one keeps the tally: a
   * skipped cluster has been seen, a counted one has not.
   */
  lemma TableTally(seen: set<nat>, num: nat, bc: Option<nat>, ic: Option<nat>, tc: Option<nat>, last: nat,
                   c: nat, num': nat, tc': Option<nat>)
    requires Tally(seen, num, bc, ic, tc, last)
    requires tc.Some? ==> c >= last
    requires TablePlaced(num, bc, ic, tc, c, num', tc')
    ensures Tally(seen + {c}, num', bc, ic, tc', c)
    ensures tc.Some? ==> tc'.Some?
  {
    var pending := Pending(bc, ic);
    if c < num || Some(c) == ic || Some(c) == bc || Some(c) == tc {
      if tc.Some? && c !in pending {
        assert c == last;
      }
      assert c in seen;
      AddOld(seen, c);
    } else {
      assert c !in pending;
      if tc.Some? {
        assert c != last;
      } else {
        }
      assert c !in seen;
      AddNew(seen, c);
    }
  }

  /** One inode-table block keeps the tally, whether or not it lies in the group. */
  lemma TableStep(seen: set<nat>, num: nat, bc: Option<nat>, ic: Option<nat>, tc: Option<nat>, last: nat,
                  found: Option<nat>, num': nat, tc': Option<nat>)
    requires Tally(seen, num, bc, ic, tc, last)
    requires found.Some? && tc.Some? ==> found.value >= last
    requires found.None? ==> num' == num && tc' == tc
    requires found.Some? ==> TablePlaced(num, bc, ic, tc, found.value, num', tc')
    ensures Tally(seen + OptSet(found), num', bc, ic, tc', if found.Some? then found.value else last)
    ensures tc.Some? ==> tc'.Some?
  {
    if found.Some? {
      TableTally(seen, num, bc, ic, tc, last, found.value, num', tc');
    } else {
      assert seen + OptSet(found) == seen;
    }
  }

  /**
   * One inode-table block of the pass over the table clusters cs keeps the
   * tally over the clusters seen so far, and `last` stays the cluster of the
   * last block in the group.
   */
  lemma TablePrefixStep(prefix: set<nat>, cs: seq<Option<nat>>, i: nat,
                        num: nat, bc: Option<nat>, ic: Option<nat>, tc: Option<nat>, last: nat, lastIdx: nat,
                        num': nat, tc': Option<nat>)
    requires i < |cs| && Ascending(cs)
    requires Tally(prefix + SetOf(cs[..i]), num, bc, ic, tc, last)
    requires tc.Some? ==> lastIdx < i && cs[lastIdx] == Some(last)
    requires cs[i].None? ==> num' == num && tc' == tc
    requires cs[i].Some? ==> TablePlaced(num, bc, ic, tc, cs[i].value, num', tc')
    ensures var last', lastIdx' := if cs[i].Some? then cs[i].value else last, if cs[i].Some? then i else lastIdx;
      && Tally(prefix + SetOf(cs[..i + 1]), num', bc, ic, tc', last')
      && (tc'.Some? ==> lastIdx' < i + 1 && cs[lastIdx'] == Some(last'))
  {
    var seen := prefix + SetOf(cs[..i]);
    if tc.Some? && cs[i].Some? {
      assert cs[lastIdx].value <= cs[i].value;
    }
    TableStep(seen, num, bc, ic, tc, last, cs[i], num', tc');
    SetOfStep(cs, i);
    ExtendSeen(seen, prefix, SetOf(cs[..i]), SetOf(cs[..i + 1]), OptSet(cs[i]));
  }

  /**
   * Dropping the inode bitmap's pending cluster when it is the block
   * bitmap's pending cluster removes the double count.
   */
  lemma DropDuplicate(seen: set<nat>, num: nat, bc: Option<nat>)
    requires bc.Some? && Tally(seen, num, bc, bc, None, 0)
    ensures Tally(seen, num, bc, None, None, 0)
  {
    assert Pending(bc, bc) == Pending(bc, None);
  }

  /** A non-empty sequence naming one cluster throughout names just that cluster. */
  lemma {:induction false} SetOfConstant(cs: seq<Option<nat>>, v: nat)
    requires |cs| >= 1 && forall j :: 0 <= j < |cs| ==> cs[j] == Some(v)
    ensures SetOf(cs) == {v}
  {
    if |cs| > 1 {
      SetOfConstant(cs[..|cs| - 1], v);
    } else {
      assert cs[..0] == [];
    }
  }
}
