/** The arithmetic of the chat screen's message window and the de-duplication
    filter of the poll: what `slice`, the page offsets and the
    `existingUuids` filter compute, and what they do to the lists. */
module Paging {
  import opened ChatTypes
  import opened MessageOrder

  /** `pageSize` of the chat screen. */
  const PageSize: nat := 170

  function Min(a: int, b: int): int
  {
    if a <= b then a else b
  }

  /** `s.slice(start, end)` for non-negative bounds: both bounds are clamped
      to the length, and a start at or after the end gives the empty list. */
  function Slice<T>(s: seq<T>, start: nat, end: nat): (r: seq<T>)
    ensures |r| == if start < Min(end, |s|) then Min(end, |s|) - start else 0
    ensures forall k :: 0 <= k < |r| ==> start + k < |s| && r[k] == s[start + k]
  {
    var lo := Min(start, |s|);
    var hi := Min(end, |s|);
    if lo <= hi then s[lo..hi] else []
  }

  /** The offset of page `page` (pages count from 0): `page * pageSize`. */
  function PageStart(page: nat): nat
  {
    page * PageSize
  }

  /** Two adjacent slices joined are the slice over both ranges. */
  lemma SliceTiles<T>(s: seq<T>, a: nat, b: nat)
    requires a <= b
    ensures Slice(s, 0, a) + Slice(s, a, b) == Slice(s, 0, b)
  {
    var l, r, whole := Slice(s, 0, a), Slice(s, a, b), Slice(s, 0, b);
    assert |l + r| == |whole|;
    forall k | 0 <= k < |whole| ensures (l + r)[k] == whole[k] {
      if k < |l| {
      } else {
        assert r[k - |l|] == s[a + (k - |l|)];
      }
    }
  }

  /** A window that holds exactly the first `page` pages (in any order) holds
      exactly the first `page + 1` pages once the next page's slice is put in
      front of it. */
  lemma PageInCovers(all: seq<Message>, window: seq<Message>, page: nat)
    requires multiset(window) == multiset(Slice(all, 0, PageStart(page)))
    ensures multiset(Slice(all, PageStart(page), PageStart(page + 1)) + window)
         == multiset(Slice(all, 0, PageStart(page + 1)))
  {
    SliceTiles(all, PageStart(page), PageStart(page + 1));
  }

  /** The page-in puts the older page IN FRONT of the window. For a list of
      more than one page whose newest message is strictly newer than the
      first message of page 1, the window after the first page-in is no
      longer newest first. */
  lemma FirstPageInBreaksOrder(all: seq<Message>)
    requires |all| > PageSize
    requires all[PageSize].sentAt < all[0].sentAt
    ensures !SortedDesc(Slice(all, PageStart(1), PageStart(2)) + Slice(all, 0, PageStart(1)))
  {
    var older, window := Slice(all, PageStart(1), PageStart(2)), Slice(all, 0, PageStart(1));
    var r := older + window;
    assert r[0] == all[PageSize];
    assert r[|older|] == window[0] == all[0];
  }

  /** `latest.filter((msg) => !uuids.has(msg.uuid))`: the feed entries whose
      `uuid` is not in `uuids`, in feed order. */
  function Unseen(feed: seq<Message>, uuids: set<string>): (r: seq<Message>)
    ensures |r| <= |feed|
    ensures forall m :: m in r <==> m in feed && m.uuid !in uuids
    ensures multiset(r) <= multiset(feed)
  {
    if feed == [] then []
    else
      assert feed == [feed[0]] + feed[1..];
      (if feed[0].uuid in uuids then [] else [feed[0]]) + Unseen(feed[1..], uuids)
  }

  /** The filter keeps feed order: filtering a concatenation filters each part. */
  lemma {:induction false} UnseenAppend(a: seq<Message>, b: seq<Message>, uuids: set<string>)
    ensures Unseen(a + b, uuids) == Unseen(a, uuids) + Unseen(b, uuids)
  {
    if a != [] {
      assert (a + b)[1..] == a[1..] + b;
      UnseenAppend(a[1..], b, uuids);
    } else {
      assert a + b == b;
    }
  }

  /** Filtering twice by the same uuids filters once. */
  lemma {:induction false} UnseenTwice(feed: seq<Message>, uuids: set<string>)
    ensures Unseen(Unseen(feed, uuids), uuids) == Unseen(feed, uuids)
  {
    if feed != [] {
      UnseenTwice(feed[1..], uuids);
      var head := if feed[0].uuid in uuids then [] else [feed[0]];
      UnseenAppend(head, Unseen(feed[1..], uuids), uuids);
      if head != [] {
        assert head[1..] == [];
      }
    }
  }

  lemma {:induction false} UnseenKeepsUnique(feed: seq<Message>, uuids: set<string>)
    requires UniqueUuids(feed)
    ensures UniqueUuids(Unseen(feed, uuids))
  {
    if feed != [] {
      var tail := feed[1..];
      UnseenKeepsUnique(tail, uuids);
      var rest := Unseen(tail, uuids);
      if feed[0].uuid !in uuids {
        forall k | 0 <= k < |rest| ensures rest[k].uuid != feed[0].uuid {
          assert rest[k] in tail;
          var j :| 0 <= j < |tail| && tail[j] == rest[k];
          assert feed[j + 1] == rest[k];
        }
        ConsKeepsUnique(feed[0], rest);
      } else {
        assert [] + rest == rest;
      }
    }
  }

  /** The full list after a poll that found `survivors`:
      `[...survivors, ...all]` sorted newest first. */
  function MergedAll(survivors: seq<Message>, all: seq<Message>): (r: seq<Message>)
    ensures SortedDesc(r)
    ensures multiset(r) == multiset(survivors) + multiset(all)
  {
    SortDesc(survivors + all)
  }

  /** The poll de-duplicates against the VISIBLE list only. A message that is
      loaded but not visible and comes back in the feed ends up twice in the
      full list. */
  lemma PollCanDuplicate(all: seq<Message>, visible: seq<Message>, m: Message)
    requires m in all
    requires m.uuid !in Uuids(visible)
    ensures multiset(MergedAll(Unseen([m], Uuids(visible)), all))[m] >= 2
  {
    assert m in Unseen([m], Uuids(visible));
  }

  /** When every loaded uuid is also visible (all pages shown), a feed
      without repeated uuids keeps the full list free of duplicates. */
  lemma PollKeepsUnique(all: seq<Message>, visible: seq<Message>, feed: seq<Message>)
    requires UniqueUuids(all)
    requires UniqueUuids(feed)
    requires Uuids(all) <= Uuids(visible)
    ensures UniqueUuids(MergedAll(Unseen(feed, Uuids(visible)), all))
  {
    var survivors := Unseen(feed, Uuids(visible));
    UnseenKeepsUnique(feed, Uuids(visible));
    var joined := survivors + all;
    forall i, j | 0 <= i < j < |joined| ensures joined[i].uuid != joined[j].uuid {
      if j < |survivors| {
      } else if i >= |survivors| {
        assert joined[i] == all[i - |survivors|] && joined[j] == all[j - |survivors|];
      } else {
        assert joined[i] in survivors;
        assert joined[j] == all[j - |survivors|];
        assert joined[j].uuid in Uuids(all);
      }
    }
    SortDescKeepsUnique(joined);
  }
}
