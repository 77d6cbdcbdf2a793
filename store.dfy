/**
 * The controller's list of pending notifications: `(timestamp, text)` pairs
 * kept newest first, re-sorted on every insertion and pruned once they are two
 * hours old.  Timestamps are whole seconds.
 */
module Store {

  /** Lifetime of a notification: two hours. */
  const NOTIFICATION_DURATION_SECONDS: int := 2 * 60 * 60

  datatype Notification = Notification(timestamp: int, text: string)

  /** Newest first: timestamps never increase along the list. */
  predicate SortedDesc(s: seq<Notification>) {
    forall i, j :: 0 <= i < j < |s| ==> s[i].timestamp >= s[j].timestamp
  }

  /** The entries of `s` stamped `t`, in their order in `s`. */
  function WithTimestamp(s: seq<Notification>, t: int): seq<Notification> {
    if s == [] then []
    else
      WithTimestamp(s[..|s| - 1], t)
      + (if s[|s| - 1].timestamp == t then [s[|s| - 1]] else [])
  }

  lemma {:induction false} WithTimestampMember(s: seq<Notification>, t: int, x: Notification)
    requires x in WithTimestamp(s, t)
    ensures x in s && x.timestamp == t
  {
    if s != [] && x in WithTimestamp(s[..|s| - 1], t) {
      WithTimestampMember(s[..|s| - 1], t, x);
    }
  }

  /** The last entry of a list shows up among the entries with its timestamp. */
  lemma FilterOfLast(s: seq<Notification>)
    requires s != []
    ensures WithTimestamp(s, s[|s| - 1].timestamp) != []
  {
  }

  lemma {:induction false} WithTimestampConcat(a: seq<Notification>, b: seq<Notification>, t: int)
    ensures WithTimestamp(a + b, t) == WithTimestamp(a, t) + WithTimestamp(b, t)
    decreases |b|
  {
    if b == [] {
      assert a + b == a;
    } else {
      var b' := b[..|b| - 1];
      assert (a + b)[..|a + b| - 1] == a + b';
      assert (a + b)[|a + b| - 1] == b[|b| - 1];
      WithTimestampConcat(a, b', t);
    }
  }

  /** How many leading entries of `s` are stamped `t` or later. */
  function NewerPrefix(s: seq<Notification>, t: int): (k: nat)
    ensures k <= |s|
    ensures forall j :: 0 <= j < k ==> s[j].timestamp >= t
    ensures k < |s| ==> s[k].timestamp < t
  {
    if s == [] || s[0].timestamp < t then 0 else 1 + NewerPrefix(s[1..], t)
  }

  /** On a newest-first list, everything from the newer prefix on is older than `t`. */
  lemma NewerPrefixSplits(s: seq<Notification>, t: int)
    requires SortedDesc(s)
    ensures forall j :: NewerPrefix(s, t) <= j < |s| ==> s[j].timestamp < t
  {
    var k := NewerPrefix(s, t);
    if k < |s| {
      forall j | k <= j < |s| ensures s[j].timestamp < t {
        assert s[k].timestamp >= s[j].timestamp;
      }
    }
  }

  /** `x` placed behind every entry stamped at or after it. */
  function InsertDesc(s: seq<Notification>, x: Notification): seq<Notification> {
    var k := NewerPrefix(s, x.timestamp);
    s[..k] + [x] + s[k..]
  }

  /** Where each entry of `InsertDesc(s, x)` comes from. */
  lemma InsertDescAt(s: seq<Notification>, x: Notification)
    ensures |InsertDesc(s, x)| == |s| + 1
    ensures forall i :: 0 <= i < |s| + 1 ==>
      InsertDesc(s, x)[i] == if i < NewerPrefix(s, x.timestamp) then s[i]
                             else if i == NewerPrefix(s, x.timestamp) then x
                             else s[i - 1]
  {
  }

  lemma InsertDescSorted(s: seq<Notification>, x: Notification)
    requires SortedDesc(s)
    ensures SortedDesc(InsertDesc(s, x))
  {
    var k := NewerPrefix(s, x.timestamp);
    var r := InsertDesc(s, x);
    InsertDescAt(s, x);
    NewerPrefixSplits(s, x.timestamp);
    forall i, j | 0 <= i < j < |r| ensures r[i].timestamp >= r[j].timestamp {
      if j < k {
        assert s[i].timestamp >= s[j].timestamp;
      } else if j == k {
      } else if i < k {
        assert s[i].timestamp >= s[j - 1].timestamp;
      } else if i == k {
      } else {
        assert s[i - 1].timestamp >= s[j - 1].timestamp;
      }
    }
  }

  lemma InsertDescMultiset(s: seq<Notification>, x: Notification)
    ensures multiset(InsertDesc(s, x)) == multiset(s) + multiset{x}
  {
    var k := NewerPrefix(s, x.timestamp);
    assert s[..k] + s[k..] == s;
  }

  /** No entry of `s` is stamped `t`. */
  lemma {:induction false} WithTimestampNone(s: seq<Notification>, t: int)
    requires forall y :: y in s ==> y.timestamp != t
    ensures WithTimestamp(s, t) == []
  {
    if s != [] {
      WithTimestampNone(s[..|s| - 1], t);
    }
  }

  lemma WithTimestampSingle(x: Notification, t: int)
    ensures WithTimestamp([x], t) == if x.timestamp == t then [x] else []
  {
    assert [x][..0] == [];
  }

  /** A suffix of entries all older than `t` has none stamped `t`. */
  lemma OlderSuffixHasNone(s: seq<Notification>, k: nat, t: int)
    requires k <= |s|
    requires forall j :: k <= j < |s| ==> s[j].timestamp < t
    ensures WithTimestamp(s[k..], t) == []
  {
    var b := s[k..];
    forall y | y in b ensures y.timestamp != t {
      var j :| 0 <= j < |b| && b[j] == y;
      assert s[k + j] == y;
    }
    WithTimestampNone(b, t);
  }

  lemma SplitLast(s: seq<Notification>)
    requires s != []
    ensures s == s[..|s| - 1] + [s[|s| - 1]]
  {
  }

  lemma SplitAt(s: seq<Notification>, k: nat)
    requires k <= |s|
    ensures s[..k] + s[k..] == s
  {
  }

  lemma InsertBetween(a: seq<Notification>, x: Notification, b: seq<Notification>,
                      s: seq<Notification>, r: seq<Notification>)
    requires s == a + b && r == a + [x] + b
    requires WithTimestamp(b, x.timestamp) == []
    ensures WithTimestamp(r, x.timestamp) == WithTimestamp(s, x.timestamp) + [x]
  {
    var t := x.timestamp;
    WithTimestampSingle(x, t);
    WithTimestampConcat(a + [x], b, t);
    WithTimestampConcat(a, [x], t);
    WithTimestampConcat(a, b, t);
  }

  /** Inserting `x` adds it behind the other entries stamped like it. */
  lemma InsertDescSameTimestamp(s: seq<Notification>, x: Notification)
    requires WithTimestamp(s[NewerPrefix(s, x.timestamp)..], x.timestamp) == []
    ensures WithTimestamp(InsertDesc(s, x), x.timestamp) == WithTimestamp(s, x.timestamp) + [x]
  {
    var k := NewerPrefix(s, x.timestamp);
    SplitAt(s, k);
    InsertBetween(s[..k], x, s[k..], s, InsertDesc(s, x));
  }

  /** Inserting `x` leaves the entries of every other timestamp as they were. */
  lemma InsertDescOtherTimestamp(s: seq<Notification>, x: Notification, t: int)
    requires t != x.timestamp
    ensures WithTimestamp(InsertDesc(s, x), t) == WithTimestamp(s, t)
  {
    var k := NewerPrefix(s, x.timestamp);
    var a, b := s[..k], s[k..];
    WithTimestampSingle(x, t);
    calc {
      WithTimestamp(InsertDesc(s, x), t);
      WithTimestamp((a + [x]) + b, t);
      { WithTimestampConcat(a + [x], b, t); WithTimestampConcat(a, [x], t); }
      WithTimestamp(a, t) + WithTimestamp(b, t);
      { assert a + b == s; WithTimestampConcat(a, b, t); }
      WithTimestamp(s, t);
    }
  }

  lemma InsertDescKeepsOrder(s: seq<Notification>, x: Notification)
    requires SortedDesc(s)
    ensures SortedDesc(InsertDesc(s, x))
    ensures multiset(InsertDesc(s, x)) == multiset(s) + multiset{x}
    ensures forall t :: WithTimestamp(InsertDesc(s, x), t)
                        == WithTimestamp(s, t) + (if x.timestamp == t then [x] else [])
  {
    InsertDescSorted(s, x);
    InsertDescMultiset(s, x);
    NewerPrefixSplits(s, x.timestamp);
    forall t
      ensures WithTimestamp(InsertDesc(s, x), t)
              == WithTimestamp(s, t) + (if x.timestamp == t then [x] else [])
    {
      if t == x.timestamp {
        OlderSuffixHasNone(s, NewerPrefix(s, x.timestamp), t);
        InsertDescSameTimestamp(s, x);
      } else {
        InsertDescOtherTimestamp(s, x, t);
      }
    }
  }

  /**
   * Python's `list.sort(key=timestamp, reverse=True)`, written as an insertion
   * sort: newest first, and entries with equal timestamps keep their order.
   */
  function SortDesc(s: seq<Notification>): (r: seq<Notification>)
    ensures SortedDesc(r)
    ensures multiset(r) == multiset(s)
    ensures forall t :: WithTimestamp(r, t) == WithTimestamp(s, t)
    decreases |s|
  {
    if s == [] then []
    else
      var u := SortDesc(s[..|s| - 1]);
      SplitLast(s);
      SortStep(s[..|s| - 1], s[|s| - 1], u, s);
      InsertDesc(u, s[|s| - 1])
  }

  /** Inserting the next entry into a stable sort of the entries before it. */
  lemma SortStep(p: seq<Notification>, x: Notification, u: seq<Notification>, s: seq<Notification>)
    requires s == p + [x]
    requires SortedDesc(u) && multiset(u) == multiset(p)
    requires forall t :: WithTimestamp(u, t) == WithTimestamp(p, t)
    ensures SortedDesc(InsertDesc(u, x))
    ensures multiset(InsertDesc(u, x)) == multiset(s)
    ensures forall t :: WithTimestamp(InsertDesc(u, x), t) == WithTimestamp(s, t)
  {
    InsertDescKeepsOrder(u, x);
    forall t ensures WithTimestamp(InsertDesc(u, x), t) == WithTimestamp(s, t) {
      WithTimestampConcat(p, [x], t);
      WithTimestampSingle(x, t);
    }
  }

  /** On a newest-first list the last entry is the oldest. */
  lemma OldestLast(s: seq<Notification>, y: Notification)
    requires SortedDesc(s) && y in s
    ensures y.timestamp >= s[|s| - 1].timestamp
  {
    var i :| 0 <= i < |s| && s[i] == y;
    assert s[i].timestamp >= s[|s| - 1].timestamp;
  }

  lemma SortedPrefix(s: seq<Notification>)
    requires SortedDesc(s) && s != []
    ensures SortedDesc(s[..|s| - 1])
  {
  }

  /** Two newest-first lists with the same per-timestamp subsequences end at the same timestamp. */
  lemma LastTimestampsAgree(a: seq<Notification>, b: seq<Notification>)
    requires SortedDesc(a) && SortedDesc(b) && a != [] && b != []
    requires forall t :: WithTimestamp(a, t) == WithTimestamp(b, t)
    ensures a[|a| - 1].timestamp == b[|b| - 1].timestamp
  {
    var la, lb := a[|a| - 1], b[|b| - 1];
    LastInFilter(a);
    LastInFilter(b);
    WithTimestampMember(b, la.timestamp, la);
    WithTimestampMember(a, lb.timestamp, lb);
    OldestLast(b, la);
    OldestLast(a, lb);
  }

  lemma LastInFilter(s: seq<Notification>)
    requires s != []
    ensures WithTimestamp(s, s[|s| - 1].timestamp)
            == WithTimestamp(s[..|s| - 1], s[|s| - 1].timestamp) + [s[|s| - 1]]
  {
  }

  /** Lists ending at the same timestamp, with the same entries stamped so, end in the same entry. */
  lemma LastEntriesAgree(a: seq<Notification>, b: seq<Notification>)
    requires a != [] && b != [] && a[|a| - 1].timestamp == b[|b| - 1].timestamp
    requires WithTimestamp(a, a[|a| - 1].timestamp) == WithTimestamp(b, a[|a| - 1].timestamp)
    ensures a[|a| - 1] == b[|b| - 1]
  {
    var la, lb := a[|a| - 1], b[|b| - 1];
    LastInFilter(a);
    LastInFilter(b);
    var wa, wb := WithTimestamp(a[..|a| - 1], la.timestamp), WithTimestamp(b[..|b| - 1], la.timestamp);
    assert wa + [la] == wb + [lb];
    assert (wa + [la])[|wa|] == la;
    assert (wb + [lb])[|wb|] == lb;
  }

  /** Dropping the same last entry from both lists keeps their subsequences stamped `t` equal. */
  lemma InitFiltersAgree(a: seq<Notification>, b: seq<Notification>, t: int)
    requires a != [] && b != [] && a[|a| - 1] == b[|b| - 1]
    requires WithTimestamp(a, t) == WithTimestamp(b, t)
    ensures WithTimestamp(a[..|a| - 1], t) == WithTimestamp(b[..|b| - 1], t)
  {
    var l := a[|a| - 1];
    var wa, wb := WithTimestamp(a[..|a| - 1], t), WithTimestamp(b[..|b| - 1], t);
    if l.timestamp == t {
      assert wa + [l] == wb + [l];
      assert wa == (wa + [l])[..|wa|];
      assert wb == (wb + [l])[..|wb|];
    } else {
      assert wa + [] == wa;
      assert wb + [] == wb;
    }
  }

  /**
   * A newest-first list is determined by its per-timestamp subsequences, so
   * every stable descending sort gives the same list as SortDesc.
   */
  lemma {:induction false} StableSortUnique(a: seq<Notification>, b: seq<Notification>)
    requires SortedDesc(a) && SortedDesc(b)
    requires forall t :: WithTimestamp(a, t) == WithTimestamp(b, t)
    ensures a == b
    decreases |a|
  {
    if a == [] && b != [] {
      FilterOfLast(b);
      assert false;
    } else if a != [] && b == [] {
      FilterOfLast(a);
      assert false;
    } else if a != [] {
      var a', b' := a[..|a| - 1], b[..|b| - 1];
      LastTimestampsAgree(a, b);
      LastEntriesAgree(a, b);
      forall t ensures WithTimestamp(a', t) == WithTimestamp(b', t) {
        InitFiltersAgree(a, b, t);
      }
      SortedPrefix(a);
      SortedPrefix(b);
      StableSortUnique(a', b');
      assert a == a' + [a[|a| - 1]];
      assert b == b' + [b[|b| - 1]];
    }
  }

  /** Sorting a list that is already newest first leaves it as it is. */
  lemma SortDescOfSorted(s: seq<Notification>)
    requires SortedDesc(s)
    ensures SortDesc(s) == s
  {
    StableSortUnique(SortDesc(s), s);
  }

  /**
   * What `notify` does to a newest-first list: the new entry goes behind every
   * entry stamped at or after it (so an older insertion with the same
   * timestamp stays ahead) and in front of every older one.
   */
  lemma NotifyPlacement(s: seq<Notification>, x: Notification)
    requires SortedDesc(s)
    ensures NewerPrefix(s, x.timestamp) <= |s|
    ensures SortDesc(s + [x]) == s[..NewerPrefix(s, x.timestamp)] + [x] + s[NewerPrefix(s, x.timestamp)..]
    ensures forall j :: 0 <= j < NewerPrefix(s, x.timestamp) ==> s[j].timestamp >= x.timestamp
    ensures forall j :: NewerPrefix(s, x.timestamp) <= j < |s| ==> s[j].timestamp < x.timestamp
  {
    assert (s + [x])[..|s|] == s;
    SortDescOfSorted(s);
    NewerPrefixSplits(s, x.timestamp);
  }

  predicate Expired(n: Notification, now: int) {
    now - n.timestamp >= NOTIFICATION_DURATION_SECONDS
  }

  /** The entries of `s` younger than the lifetime, in their order in `s`. */
  function Unexpired(s: seq<Notification>, now: int): (r: seq<Notification>)
    ensures forall x :: x in r ==> x in s && !Expired(x, now)
    ensures forall i :: 0 <= i < |s| && !Expired(s[i], now) ==> s[i] in r
  {
    if s == [] then []
    else
      Unexpired(s[..|s| - 1], now)
      + (if Expired(s[|s| - 1], now) then [] else [s[|s| - 1]])
  }

  /** Pruning removes every copy of an expired entry and no copy of any other. */
  lemma {:induction false} PruneExact(s: seq<Notification>, now: int)
    ensures forall x :: multiset(Unexpired(s, now))[x]
                        == if Expired(x, now) then 0 else multiset(s)[x]
  {
    if s != [] {
      var p := s[..|s| - 1];
      PruneExact(p, now);
      assert s == p + [s[|s| - 1]];
    }
  }

  /** Pruning a concatenation prunes each part: survivors keep their relative order. */
  lemma {:induction false} PruneSplits(a: seq<Notification>, b: seq<Notification>, now: int)
    ensures Unexpired(a + b, now) == Unexpired(a, now) + Unexpired(b, now)
    decreases |b|
  {
    if b == [] {
      assert a + b == a;
    } else {
      var b' := b[..|b| - 1];
      var last := b[|b| - 1];
      var tail := if Expired(last, now) then [] else [last];
      assert (a + b)[..|a + b| - 1] == a + b';
      assert (a + b)[|a + b| - 1] == last;
      assert Unexpired(a + b, now) == Unexpired(a + b', now) + tail;
      assert Unexpired(b, now) == Unexpired(b', now) + tail;
      PruneSplits(a, b', now);
      assert (Unexpired(a, now) + Unexpired(b', now)) + tail == Unexpired(a, now) + (Unexpired(b', now) + tail);
    }
  }

  /** Pruning keeps a newest-first list newest first. */
  lemma {:induction false} PruneKeepsSorted(s: seq<Notification>, now: int)
    requires SortedDesc(s)
    ensures SortedDesc(Unexpired(s, now))
  {
    if s != [] {
      var p, last := s[..|s| - 1], s[|s| - 1];
      PruneKeepsSorted(p, now);
      var u := Unexpired(p, now);
      forall x | x in u ensures x.timestamp >= last.timestamp {
        var i :| 0 <= i < |p| && p[i] == x;
        assert s[i] == x;
      }
    }
  }

  /** Pruning twice is pruning once. */
  lemma {:induction false} PruneIdempotent(s: seq<Notification>, now: int)
    ensures Unexpired(Unexpired(s, now), now) == Unexpired(s, now)
  {
    if s != [] {
      var p, last := s[..|s| - 1], s[|s| - 1];
      PruneIdempotent(p, now);
      PruneSplits(Unexpired(p, now), if Expired(last, now) then [] else [last], now);
      assert [last][..0] == [];
    }
  }

  /** Index of the first entry equal to `x`. */
  function IndexOf(s: seq<Notification>, x: Notification): (i: nat)
    requires x in s
    ensures i < |s| && s[i] == x && x !in s[..i]
  {
    if s[0] == x then 0
    else
      var j := IndexOf(s[1..], x);
      assert s[..j + 1] == [s[0]] + s[1..][..j];
      j + 1
  }

  /** Python's `list.remove(x)`: drop the first entry equal to `x`. */
  function RemoveFirst(s: seq<Notification>, x: Notification): (r: seq<Notification>)
    requires x in s
    ensures |r| == |s| - 1
    ensures multiset(r) == multiset(s) - multiset{x}
    ensures var i := IndexOf(s, x); r[..i] == s[..i] && r[i..] == s[i + 1..]
  {
    var i := IndexOf(s, x);
    assert s == s[..i] + [x] + s[i + 1..];
    s[..i] + s[i + 1..]
  }

  /**
   * One removal step of the prune loop: when every entry before the one being
   * visited survives and the visited one has expired, `remove` takes exactly
   * the visited entry, because an equal entry would have expired too.
   */
  lemma RemoveExpiredStep(kept: seq<Notification>, rest: seq<Notification>, now: int)
    requires rest != [] && Expired(rest[0], now)
    requires forall j :: 0 <= j < |kept| ==> !Expired(kept[j], now)
    ensures rest[0] in kept + rest
    ensures RemoveFirst(kept + rest, rest[0]) == kept + rest[1..]
  {
    var s := kept + rest;
    assert s[|kept|] == rest[0];
    var i := IndexOf(s, rest[0]);
    assert i == |kept|;
    var r := RemoveFirst(s, rest[0]);
    assert r == r[..i] + r[i..];
    assert s[..i] == kept && s[i + 1..] == rest[1..];
  }

  /** Filtering one more entry of `s` appends it unless it has expired. */
  lemma UnexpiredExtend(s: seq<Notification>, i: nat, now: int)
    requires i < |s|
    ensures Unexpired(s[..i + 1], now)
      == Unexpired(s[..i], now) + (if Expired(s[i], now) then [] else [s[i]])
  {
    var p := s[..i + 1];
    assert p[..|p| - 1] == s[..i] && p[|p| - 1] == s[i];
  }

  /** No survivor of pruning has expired, position by position. */
  lemma SurvivorsUnexpired(s: seq<Notification>, now: int)
    ensures forall j :: 0 <= j < |Unexpired(s, now)| ==> !Expired(Unexpired(s, now)[j], now)
  {
    var kept := Unexpired(s, now);
    forall j | 0 <= j < |kept| ensures !Expired(kept[j], now) {
      assert kept[j] in kept;
    }
  }

  /**
   * One step of the prune walk over a copy of the list, at an expired entry:
   * the entries before position `i` of the copy are already filtered and the
   * rest is untouched, so `remove` finds the entry at its own place and the
   * filtered prefix grows by nothing.
   */
  lemma PruneStepRemoves(copy: seq<Notification>, i: nat, now: int, cur: seq<Notification>)
    requires i < |copy| && cur == Unexpired(copy[..i], now) + copy[i..]
    requires Expired(copy[i], now)
    ensures copy[i] in cur
    ensures RemoveFirst(cur, copy[i]) == Unexpired(copy[..i + 1], now) + copy[i + 1..]
  {
    UnexpiredExtend(copy, i, now);
    var kept := Unexpired(copy[..i], now);
    SurvivorsUnexpired(copy[..i], now);
    assert copy[i..][0] == copy[i];
    RemoveExpiredStep(kept, copy[i..], now);
    assert copy[i..][1..] == copy[i + 1..];
    assert kept + [] == kept;
  }

  /**
   * The same step at an entry that has not expired: nothing is removed, and
   * the entry moves from the untouched rest to the filtered prefix.
   */
  lemma PruneStepKeeps(copy: seq<Notification>, i: nat, now: int, cur: seq<Notification>)
    requires i < |copy| && cur == Unexpired(copy[..i], now) + copy[i..]
    requires !Expired(copy[i], now)
    ensures cur == Unexpired(copy[..i + 1], now) + copy[i + 1..]
  {
    UnexpiredExtend(copy, i, now);
    assert copy[i..] == [copy[i]] + copy[i + 1..];
    MoveToPrefix(Unexpired(copy[..i], now), copy[i], copy[i + 1..], cur);
  }

  /** Moving the head of the rest onto the end of the prefix keeps the whole. */
  lemma MoveToPrefix(prefix: seq<Notification>, x: Notification, rest: seq<Notification>,
                     whole: seq<Notification>)
    requires whole == prefix + ([x] + rest)
    ensures whole == (prefix + [x]) + rest
  {
  }

  /**
   * The prune walk: for each entry of a copy of `s`, an entry at least
   * `NOTIFICATION_DURATION_SECONDS` old is removed from the list by its first
   * occurrence.  The result is exactly the unexpired entries in their order.
   */
  method RemoveExpired(s: seq<Notification>, now: int) returns (kept: seq<Notification>)
    ensures kept == Unexpired(s, now)
  {
    kept := s;
    for i := 0 to |s|
      invariant kept == Unexpired(s[..i], now) + s[i..]
    {
      var n := s[i];
      if now - n.timestamp >= NOTIFICATION_DURATION_SECONDS {
        PruneStepRemoves(s, i, now, kept);
        kept := RemoveFirst(kept, n);
      } else {
        PruneStepKeeps(s, i, now, kept);
      }
    }
    assert s[..|s|] == s && s[|s|..] == [];
    assert Unexpired(s, now) + [] == Unexpired(s, now);
  }
}
