/** Lists of recipients under insertion, removal and replacement. */
module Roster {
  import opened Wrappers
  import opened Identity
  import opened Policy
  import opened Envelopes

  /** Puts one record before the first of higher id. */
  function Insert(rs: seq<RecipientRecord>, r: RecipientRecord): (after: seq<RecipientRecord>)
    ensures |after| == |rs| + 1
    ensures multiset(after) == multiset(rs) + multiset{r}
  {
    if rs == [] || Rank(r.id) < Rank(rs[0].id) then [r] + rs
    else
      assert rs == [rs[0]] + rs[1..];
      [rs[0]] + Insert(rs[1..], r)
  }

  /** The stable sort by id. */
  function SortById(rs: seq<RecipientRecord>): (after: seq<RecipientRecord>)
    ensures |after| == |rs|
    ensures multiset(after) == multiset(rs)
  {
    if rs == [] then [] else
    assert rs == rs[..|rs| - 1] + [rs[|rs| - 1]];
    Insert(SortById(rs[..|rs| - 1]), rs[|rs| - 1])
  }

  ghost predicate IdFree(rs: seq<RecipientRecord>, id: RecipientId)
  {
    forall i | 0 <= i < |rs| :: rs[i].id != id
  }

  /** Where a recipient stands, if anywhere. */
  ghost function Position(rs: seq<RecipientRecord>, id: RecipientId): (i: Option<nat>)
    ensures i.Some? ==> i.value < |rs| && rs[i.value].id == id
    ensures i.None? ==> IdFree(rs, id)
  {
    if IdFree(rs, id) then None else
    var k: nat :| k < |rs| && rs[k].id == id;
    Some(k)
  }

  lemma OnePosition(rs: seq<RecipientRecord>, i: nat)
    requires Ascending(rs) && i < |rs|
    ensures Position(rs, rs[i].id) == Some(i)
  {
    assert !IdFree(rs, rs[i].id);
  }

  ghost predicate AllAbove(rs: seq<RecipientRecord>, rank: nat)
  {
    forall x | x in rs :: rank < Rank(x.id)
  }

  /** An ascending list, from its front. */
  lemma AscendingFront(rs: seq<RecipientRecord>)
    requires rs != []
    ensures Ascending(rs) <==> AllAbove(rs[1..], Rank(rs[0].id)) && Ascending(rs[1..])
  {
    var tail := rs[1..];
    if Ascending(rs) {
      forall x | x in tail
        ensures Rank(rs[0].id) < Rank(x.id)
      {
        var k :| 0 <= k < |tail| && tail[k] == x;
        assert rs[k + 1] == x;
      }
    }
    if AllAbove(tail, Rank(rs[0].id)) && Ascending(tail) {
      forall i, j | 0 <= i < j < |rs|
        ensures Rank(rs[i].id) < Rank(rs[j].id)
      {
        assert rs[j] == tail[j - 1];
        assert tail[j - 1] in tail;
        if i > 0 { assert rs[i] == tail[i - 1]; }
      }
    }
  }

  lemma {:induction false} InInsert(rs: seq<RecipientRecord>, r: RecipientRecord)
    ensures forall x :: x in Insert(rs, r) <==> x in rs || x == r
  {
    forall x
      ensures x in Insert(rs, r) <==> x in rs || x == r
    {
      assert x in Insert(rs, r) <==> x in multiset(rs) + multiset{r};
    }
  }

  lemma {:induction false} InsertAscends(rs: seq<RecipientRecord>, r: RecipientRecord)
    requires Ascending(rs) && IdFree(rs, r.id)
    ensures Ascending(Insert(rs, r))
  {
    var after := Insert(rs, r);
    if rs == [] {
    } else if Rank(r.id) < Rank(rs[0].id) {
      AscendingFront(rs);
      assert after[1..] == rs;
      AscendingFront(after);
    } else {
      RanksDiffer(r.id, rs[0].id);
      AscendingFront(rs);
      InsertAscends(rs[1..], r);
      InInsert(rs[1..], r);
      assert after == [rs[0]] + Insert(rs[1..], r);
      hide Insert, Ascending;
      assert after[1..] == Insert(rs[1..], r);
      AscendingFront(after);
    }
  }

  /** Sorting after a push inserts into the sorted rest. */
  lemma SortAfterPush(rs: seq<RecipientRecord>, r: RecipientRecord)
    ensures SortById(rs + [r]) == Insert(SortById(rs), r)
  {
    assert (rs + [r])[..|rs|] == rs;
  }

  lemma AscendingEnd(rs: seq<RecipientRecord>)
    requires rs != [] && Ascending(rs)
    ensures var init, last := rs[..|rs| - 1], rs[|rs| - 1];
            rs == init + [last] && Ascending(init) && forall i | 0 <= i < |init| :: Rank(init[i].id) < Rank(last.id)
  {
  }

  lemma {:induction false} SortKeepsAscending(rs: seq<RecipientRecord>)
    requires Ascending(rs)
    ensures SortById(rs) == rs
  {
    if rs != [] {
      AscendingEnd(rs);
      hide Ascending;
      var init, last := rs[..|rs| - 1], rs[|rs| - 1];
      SortKeepsAscending(init);
      SortAfterPush(init, last);
      hide Insert, SortById, Rank;
      InsertAtEnd(init, last);
    }
  }

  lemma {:induction false} InsertAtEnd(rs: seq<RecipientRecord>, r: RecipientRecord)
    requires forall i | 0 <= i < |rs| :: Rank(rs[i].id) < Rank(r.id)
    ensures Insert(rs, r) == rs + [r]
  {
    if rs != [] {
      InsertAtEnd(rs[1..], r);
      assert rs == [rs[0]] + rs[1..];
      assert [rs[0]] + (rs[1..] + [r]) == rs + [r];
    }
  }

  lemma {:induction false} SortAscends(rs: seq<RecipientRecord>)
    requires forall i, j | 0 <= i < j < |rs| :: rs[i].id != rs[j].id
    ensures Ascending(SortById(rs))
  {
    if rs != [] {
      var init, last := rs[..|rs| - 1], rs[|rs| - 1];
      SortAscends(init);
      var sorted := SortById(init);
      forall i | 0 <= i < |sorted|
        ensures sorted[i].id != last.id
      {
        assert sorted[i] in multiset(init);
        var k :| 0 <= k < |init| && init[k] == sorted[i];
        assert rs[k] == init[k];
      }
      InsertAscends(sorted, last);
    }
  }

  lemma TailMultiset(rs: seq<RecipientRecord>)
    requires rs != []
    ensures multiset(rs[1..]) == multiset(rs) - multiset{rs[0]}
  {
    assert rs == [rs[0]] + rs[1..];
  }

  lemma FirstIsLeast(rs: seq<RecipientRecord>, x: RecipientRecord)
    requires Ascending(rs) && x in rs
    ensures x == rs[0] || Rank(rs[0].id) < Rank(x.id)
  {
  }

  lemma SameSize(rs: seq<RecipientRecord>, ss: seq<RecipientRecord>)
    requires multiset(rs) == multiset(ss)
    ensures |rs| == |ss| && forall x :: x in rs <==> x in ss
  {
    assert |multiset(rs)| == |rs| && |multiset(ss)| == |ss|;
    forall x
      ensures x in rs <==> x in ss
    {
      assert x in rs <==> x in multiset(rs);
    }
  }

  /** Two ascending lists of the same records begin with the same one. */
  lemma SameFirst(rs: seq<RecipientRecord>, ss: seq<RecipientRecord>)
    requires Ascending(rs) && Ascending(ss) && rs != [] && ss != []
    requires ss[0] in rs && rs[0] in ss
    ensures rs[0] == ss[0]
  {
    FirstIsLeast(rs, ss[0]);
    FirstIsLeast(ss, rs[0]);
  }

  /** An ascending list is determined by what is in it. */
  lemma {:induction false} AscendingUnique(rs: seq<RecipientRecord>, ss: seq<RecipientRecord>)
    requires Ascending(rs) && Ascending(ss) && multiset(rs) == multiset(ss)
    ensures rs == ss
    decreases |rs|
  {
    hide Ascending, AllAbove;
    SameSize(rs, ss);
    if rs != [] {
      assert rs[0] in ss && ss[0] in rs;
      SameFirst(rs, ss);
      AscendingFront(rs);
      AscendingFront(ss);
      TailMultiset(rs);
      TailMultiset(ss);
      AscendingUnique(rs[1..], ss[1..]);
      assert rs == [rs[0]] + rs[1..] && ss == [ss[0]] + ss[1..];
    }
  }

  function RemoveAt(rs: seq<RecipientRecord>, i: nat): seq<RecipientRecord>
    requires i < |rs|
  {
    rs[..i] + rs[i + 1..]
  }

  lemma RemovedMultiset(rs: seq<RecipientRecord>, i: nat)
    requires i < |rs|
    ensures multiset(RemoveAt(rs, i)) == multiset(rs) - multiset{rs[i]}
  {
    assert rs == rs[..i] + [rs[i]] + rs[i + 1..];
  }

  lemma RemovedFrom(rs: seq<RecipientRecord>, i: nat, j: nat)
    requires i < |rs| && j < |rs| - 1
    ensures |RemoveAt(rs, i)| == |rs| - 1 && RemoveAt(rs, i)[j] == rs[if j < i then j else j + 1]
  {
  }

  lemma RemoveAtValid(rs: seq<RecipientRecord>, i: nat)
    requires i < |rs| && SetValid(rs)
    ensures SetValid(RemoveAt(rs, i))
  {
    var after := RemoveAt(rs, i);
    var n := |after|;
    hide Clash, Rank, RemoveAt;
    forall j, k | 0 <= j < k < n
      ensures Rank(after[j].id) < Rank(after[k].id) && !Clash(after[j], after[k])
    {
      RemovedFrom(rs, i, j);
      RemovedFrom(rs, i, k);
    }
  }

  /** What inserting keeps, and the condition under which the list stays valid. */
  lemma InsertValid(rs: seq<RecipientRecord>, r: RecipientRecord)
    requires SetValid(rs) && IdFree(rs, r.id)
    requires forall i | 0 <= i < |rs| :: !Clash(rs[i], r)
    ensures SetValid(Insert(rs, r))
    decreases |rs|
  {
    InsertAscends(rs, r);
    InsertNoClash(rs, r);
  }

  lemma ClashSymmetric(a: RecipientRecord, b: RecipientRecord)
    ensures Clash(a, b) == Clash(b, a)
  {
  }

  lemma {:induction false} InsertNoClash(rs: seq<RecipientRecord>, r: RecipientRecord)
    requires NoClash(rs) && forall i | 0 <= i < |rs| :: !Clash(rs[i], r)
    ensures NoClash(Insert(rs, r))
  {
    hide Clash;
    if rs == [] || Rank(r.id) < Rank(rs[0].id) {
      forall i | 0 <= i < |rs|
        ensures !Clash(r, rs[i])
      {
        ClashSymmetric(r, rs[i]);
      }
    } else {
      InsertNoClash(rs[1..], r);
      var tail := Insert(rs[1..], r);
      forall j | 0 <= j < |tail|
        ensures !Clash(rs[0], tail[j])
      {
        assert tail[j] in multiset(rs[1..]) + multiset{r};
        if tail[j] != r {
          var k :| 0 <= k < |rs[1..]| && rs[1..][k] == tail[j];
          assert rs[k + 1] == tail[j];
        }
      }
    }
  }

  /** Inserting two different records gives the same list in either order. */
  lemma InsertsCommute(rs: seq<RecipientRecord>, a: RecipientRecord, b: RecipientRecord)
    requires Ascending(rs) && IdFree(rs, a.id) && IdFree(rs, b.id) && a.id != b.id
    ensures Insert(Insert(rs, a), b) == Insert(Insert(rs, b), a)
  {
    InsertAscends(rs, a);
    InsertAscends(rs, b);
    StillFree(rs, a, b.id);
    StillFree(rs, b, a.id);
    InsertAscends(Insert(rs, a), b);
    InsertAscends(Insert(rs, b), a);
    hide Insert, Ascending;
    AscendingUnique(Insert(Insert(rs, a), b), Insert(Insert(rs, b), a));
  }

  lemma StillFree(rs: seq<RecipientRecord>, r: RecipientRecord, id: RecipientId)
    requires IdFree(rs, id) && r.id != id
    ensures IdFree(Insert(rs, r), id)
  {
    var after := Insert(rs, r);
    forall i | 0 <= i < |after|
      ensures after[i].id != id
    {
      assert after[i] in multiset(rs) + multiset{r};
    }
  }

  /** Removing the record that was inserted restores the list. */
  lemma InsertThenRemove(rs: seq<RecipientRecord>, r: RecipientRecord, i: nat)
    requires SetValid(rs) && IdFree(rs, r.id) && (forall k | 0 <= k < |rs| :: !Clash(rs[k], r))
    requires i <= |rs| && Insert(rs, r)[i].id == r.id
    ensures RemoveAt(Insert(rs, r), i) == rs
  {
    InsertValid(rs, r);
    var after := Insert(rs, r);
    RemoveAtValid(after, i);
    RemovedMultiset(after, i);
    assert after[i] == r by {
      assert after[i] in multiset(rs) + multiset{r};
    }
    hide Insert, Clash, RemoveAt;
    assert multiset(RemoveAt(after, i)) == multiset(rs);
    AscendingUnique(RemoveAt(after, i), rs);
  }

  /** Replacing a record in place, under the same id and without a clash. */
  lemma ReplaceValid(rs: seq<RecipientRecord>, i: nat, r: RecipientRecord)
    requires SetValid(rs) && i < |rs| && r.id == rs[i].id
    requires forall k | 0 <= k < |rs| && k != i :: !Clash(rs[k], r)
    ensures SetValid(rs[i := r])
  {
    hide Clash;
    forall k | 0 <= k < |rs| && k != i
      ensures !Clash(r, rs[k])
    {
      ClashSymmetric(r, rs[k]);
    }
  }
}
