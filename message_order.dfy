/** Newest-first ordering of messages. The chat screen sorts with
    `(a, b) => new Date(b.sentAt) - new Date(a.sentAt)`, and JavaScript's
    `Array.prototype.sort` is stable, so messages with equal `sentAt` keep
    their input order. SortDesc is that stable sort, written as an insertion
    sort. */
module MessageOrder {
  import opened ChatTypes

  /** `sentAt` never increases along the list. */
  ghost predicate SortedDesc(ms: seq<Message>)
  {
    forall i, j :: 0 <= i < j < |ms| ==> ms[i].sentAt >= ms[j].sentAt
  }

  /** Places `m` in front of the first entry strictly older than it, so among
      equal timestamps `m` comes first. */
  function Insert(m: Message, ms: seq<Message>): (r: seq<Message>)
    ensures |r| == |ms| + 1
    ensures multiset(r) == multiset(ms) + multiset{m}
  {
    if ms == [] || m.sentAt >= ms[0].sentAt then
      [m] + ms
    else
      assert ms == [ms[0]] + ms[1..];
      [ms[0]] + Insert(m, ms[1..])
  }

  lemma {:induction false} InsertSorted(m: Message, ms: seq<Message>)
    requires SortedDesc(ms)
    ensures SortedDesc(Insert(m, ms))
  {
    if ms == [] || m.sentAt >= ms[0].sentAt {
    } else {
      InsertSorted(m, ms[1..]);
      var rest := Insert(m, ms[1..]);
      forall k | 0 <= k < |rest| ensures rest[k].sentAt <= ms[0].sentAt {
        assert rest[k] in multiset(ms[1..]) + multiset{m};
        if rest[k] != m {
          var j :| 0 <= j < |ms[1..]| && ms[1..][j] == rest[k];
          assert ms[j + 1] == rest[k];
        }
      }
    }
  }

  /** The stable newest-first sort of `ms`. */
  function SortDesc(ms: seq<Message>): (r: seq<Message>)
    ensures SortedDesc(r)
    ensures multiset(r) == multiset(ms)
  {
    if ms == [] then []
    else
      assert ms == [ms[0]] + ms[1..];
      InsertSorted(ms[0], SortDesc(ms[1..]));
      Insert(ms[0], SortDesc(ms[1..]))
  }

  /** The messages of `ms` sent at time `t`, in list order. */
  function At(ms: seq<Message>, t: int): seq<Message>
  {
    if ms == [] then []
    else (if ms[0].sentAt == t then [ms[0]] else []) + At(ms[1..], t)
  }

  lemma {:induction false} InsertAt(m: Message, ms: seq<Message>, t: int)
    ensures At(Insert(m, ms), t) == (if m.sentAt == t then [m] else []) + At(ms, t)
  {
    if ms == [] || m.sentAt >= ms[0].sentAt {
      assert ([m] + ms)[1..] == ms;
    } else {
      InsertAt(m, ms[1..], t);
      assert ([ms[0]] + Insert(m, ms[1..]))[1..] == Insert(m, ms[1..]);
    }
  }

  /** Stability: for every timestamp, the messages sent at that time appear
      in the sorted list in the order they had in the input. */
  lemma {:induction false} SortDescStable(ms: seq<Message>, t: int)
    ensures At(SortDesc(ms), t) == At(ms, t)
  {
    if ms != [] {
      SortDescStable(ms[1..], t);
      InsertAt(ms[0], SortDesc(ms[1..]), t);
    }
  }

  /** A list that is already newest first comes back unchanged. */
  lemma {:induction false} SortDescOfSorted(ms: seq<Message>)
    requires SortedDesc(ms)
    ensures SortDesc(ms) == ms
  {
    if ms != [] {
      SortDescOfSorted(ms[1..]);
      assert [ms[0]] + ms[1..] == ms;
    }
  }

  lemma ConsKeepsUnique(x: Message, ms: seq<Message>)
    requires UniqueUuids(ms)
    requires forall k :: 0 <= k < |ms| ==> ms[k].uuid != x.uuid
    ensures UniqueUuids([x] + ms)
  {
    var r := [x] + ms;
    forall i, j | 0 <= i < j < |r| ensures r[i].uuid != r[j].uuid {
      assert r[j] == ms[j - 1];
      if i > 0 { assert r[i] == ms[i - 1]; }
    }
  }

  lemma {:induction false} InsertKeepsUnique(m: Message, ms: seq<Message>)
    requires UniqueUuids(ms)
    requires forall k :: 0 <= k < |ms| ==> ms[k].uuid != m.uuid
    ensures UniqueUuids(Insert(m, ms))
  {
    if ms == [] || m.sentAt >= ms[0].sentAt {
      ConsKeepsUnique(m, ms);
    } else {
      var tail := ms[1..];
      assert forall k :: 0 <= k < |tail| ==> tail[k] == ms[k + 1];
      InsertKeepsUnique(m, tail);
      var rest := Insert(m, tail);
      forall k | 0 <= k < |rest| ensures rest[k].uuid != ms[0].uuid {
        assert rest[k] in multiset(tail) + multiset{m};
        if rest[k] != m {
          var j :| 0 <= j < |tail| && tail[j] == rest[k];
        }
      }
      ConsKeepsUnique(ms[0], rest);
    }
  }

  /** Sorting never creates two entries with the same `uuid`. */
  lemma {:induction false} SortDescKeepsUnique(ms: seq<Message>)
    requires UniqueUuids(ms)
    ensures UniqueUuids(SortDesc(ms))
  {
    if ms != [] {
      SortDescKeepsUnique(ms[1..]);
      var sorted := SortDesc(ms[1..]);
      forall i | 0 <= i < |sorted| ensures sorted[i].uuid != ms[0].uuid {
        assert sorted[i] in multiset(ms[1..]);
        var j :| 0 <= j < |ms[1..]| && ms[1..][j] == sorted[i];
        assert ms[j + 1] == sorted[i];
      }
      InsertKeepsUnique(ms[0], sorted);
    }
  }
}
