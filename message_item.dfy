/** What the chat screen derives for one rendered message: the reaction tally
    with its count badges, and whether the message opens a group of
    consecutive messages by the same author (which gets the avatar header). */
module MessageItem {
  import opened ChatTypes

  /** The `value` of each reaction, in order. */
  function Values(rs: seq<Reaction>): (vs: seq<string>)
    ensures |vs| == |rs|
    ensures forall i :: 0 <= i < |rs| ==> vs[i] == rs[i].value
  {
    if rs == [] then [] else Values(rs[..|rs| - 1]) + [rs[|rs| - 1].value]
  }

  /** The distinct values of `vs`, each at its first occurrence. */
  function FirstSeen(vs: seq<string>): (keys: seq<string>)
    ensures forall i, j :: 0 <= i < j < |keys| ==> keys[i] != keys[j]
    ensures forall v :: v in keys <==> v in vs
  {
    if vs == [] then []
    else
      var keys := FirstSeen(vs[..|vs| - 1]);
      var v := vs[|vs| - 1];
      assert vs == vs[..|vs| - 1] + [v];
      if v in keys then keys else keys + [v]
  }

  /** Index of the first occurrence of `v` in `vs`. */
  function IndexOf(vs: seq<string>, v: string): (i: nat)
    requires v in vs
    ensures i < |vs| && vs[i] == v
    ensures forall j :: 0 <= j < i ==> vs[j] != v
  {
    if vs[0] == v then 0 else 1 + IndexOf(vs[1..], v)
  }

  lemma IndexOfPrefix(vs: seq<string>, n: nat, v: string)
    requires n <= |vs|
    requires v in vs[..n]
    ensures IndexOf(vs, v) == IndexOf(vs[..n], v)
  {
    var i := IndexOf(vs[..n], v);
    assert vs[i] == v;
    assert forall j :: 0 <= j < i ==> vs[j] == vs[..n][j];
  }

  /** The tally keys follow the order in which each value first occurs. */
  lemma {:induction false} FirstSeenOrder(vs: seq<string>)
    ensures forall a, b :: 0 <= a < b < |FirstSeen(vs)| ==>
      IndexOf(vs, FirstSeen(vs)[a]) < IndexOf(vs, FirstSeen(vs)[b])
  {
    if vs != [] {
      var n := |vs| - 1;
      var prefix := vs[..n];
      FirstSeenOrder(prefix);
      var prev := FirstSeen(prefix);
      var keys := FirstSeen(vs);
      forall k | 0 <= k < |prev| ensures IndexOf(vs, prev[k]) == IndexOf(prefix, prev[k]) {
        IndexOfPrefix(vs, n, prev[k]);
      }
      assert forall a, b :: 0 <= a < b < |prev| ==> IndexOf(prefix, prev[a]) < IndexOf(prefix, prev[b]);
      if vs[n] !in prev {
        assert keys == prev + [vs[n]];
        assert vs[n] !in prefix;
        assert IndexOf(vs, vs[n]) == n;
        forall a, b | 0 <= a < b < |keys| ensures IndexOf(vs, keys[a]) < IndexOf(vs, keys[b]) {
          assert keys[a] == prev[a];
          assert IndexOf(vs, keys[a]) == IndexOf(prefix, prev[a]);
          if b < |prev| {
            assert keys[b] == prev[b];
            assert IndexOf(vs, keys[b]) == IndexOf(prefix, prev[b]);
          } else {
            assert IndexOf(prefix, prev[a]) < |prefix| == n;
          }
        }
      } else {
        assert keys == prev;
      }
    }
  }

  /** Sum, over `keys`, of the number of occurrences of each key in `vs`. */
  function Total(keys: seq<string>, vs: seq<string>): nat
  {
    if keys == [] then 0 else multiset(vs)[keys[0]] + Total(keys[1..], vs)
  }

  lemma {:induction false} TotalAppend(a: seq<string>, b: seq<string>, vs: seq<string>)
    ensures Total(a + b, vs) == Total(a, vs) + Total(b, vs)
  {
    if a != [] {
      assert (a + b)[1..] == a[1..] + b;
      TotalAppend(a[1..], b, vs);
    } else {
      assert a + b == b;
    }
  }

  /** One more occurrence of `v` adds one to the total of distinct keys
      exactly when `v` is among them. */
  lemma {:induction false} TotalExtend(keys: seq<string>, vs: seq<string>, v: string)
    requires forall i, j :: 0 <= i < j < |keys| ==> keys[i] != keys[j]
    ensures Total(keys, vs + [v]) == Total(keys, vs) + (if v in keys then 1 else 0)
  {
    if keys != [] {
      var tail := keys[1..];
      assert forall i, j :: 0 <= i < j < |tail| ==> tail[i] == keys[i + 1] && tail[j] == keys[j + 1];
      TotalExtend(tail, vs, v);
      assert keys[0] == v ==> v !in tail;
      assert v in keys <==> v == keys[0] || v in tail;
    }
  }

  /** The counts of the tally add up to the number of reactions. */
  lemma {:induction false} TallyTotal(vs: seq<string>)
    ensures Total(FirstSeen(vs), vs) == |vs|
  {
    if vs != [] {
      var n := |vs| - 1;
      var prefix, v := vs[..n], vs[n];
      assert vs == prefix + [v];
      TallyTotal(prefix);
      var prev := FirstSeen(prefix);
      TotalExtend(prev, prefix, v);
      if v !in prev {
        TotalAppend(prev, [v], vs);
        assert v !in prefix;
        assert Total([v], vs) == multiset(vs)[v] == 1;
      }
    }
  }

  /** One more value: the keys gain it unless present, its count gains one. */
  lemma TallyStep(vs: seq<string>, i: nat)
    requires i < |vs|
    ensures FirstSeen(vs[..i + 1]) ==
      if vs[i] in FirstSeen(vs[..i]) then FirstSeen(vs[..i]) else FirstSeen(vs[..i]) + [vs[i]]
    ensures multiset(vs[..i + 1]) == multiset(vs[..i]) + multiset{vs[i]}
  {
    assert vs[..i + 1] == vs[..i] + [vs[i]];
    assert vs[..i + 1][..i] == vs[..i];
  }

  /** The `reactionCounts` object built by the `forEach` over `reactions`:
      its keys in insertion order and its entries. Every distinct value is a
      key, at its first occurrence, and its entry counts the reactions that
      carry it. */
  method TallyReactions(reactions: seq<Reaction>) returns (keys: seq<string>, counts: map<string, nat>)
    ensures keys == FirstSeen(Values(reactions))
    ensures forall v :: v in counts <==> v in Values(reactions)
    ensures forall v :: v in counts ==> counts[v] == multiset(Values(reactions))[v]
  {
    ghost var vs := Values(reactions);
    keys, counts := [], map[];
    var i := 0;
    while i < |reactions|
      invariant i <= |reactions|
      invariant keys == FirstSeen(vs[..i])
      invariant forall v :: v in counts <==> v in keys
      invariant forall v :: v in counts ==> counts[v] == multiset(vs[..i])[v]
    {
      var value := reactions[i].value;
      assert value == vs[i];
      TallyStep(vs, i);
      ghost var seen := multiset(vs[..i + 1]);
      if value in counts {
        assert value in FirstSeen(vs[..i]);
        counts := counts[value := counts[value] + 1];
      } else {
        assert value !in FirstSeen(vs[..i]);
        counts := counts[value := 1];
        keys := keys + [value];
      }
      assert forall v :: v in counts ==> counts[v] == seen[v];
      i := i + 1;
    }
    assert vs[..i] == vs;
  }

  /** `count > 1`: whether the badge shows the number next to the value. */
  predicate ShowsCount(count: nat)
  {
    count > 1
  }

  /** A value's count is shown exactly when at least two reactions carry it. */
  lemma {:induction false} CountShownIffRepeated(vs: seq<string>, v: string)
    ensures ShowsCount(multiset(vs)[v])
        <==> exists i, j :: 0 <= i < j < |vs| && vs[i] == v && vs[j] == v
  {
    if vs != [] {
      var tail := vs[1..];
      assert vs == [vs[0]] + tail;
      CountShownIffRepeated(tail, v);
      if ShowsCount(multiset(vs)[v]) {
        if vs[0] == v {
          assert v in tail;
          var j :| 0 <= j < |tail| && tail[j] == v;
          assert vs[0] == v && vs[j + 1] == v;
        } else {
          var i, j :| 0 <= i < j < |tail| && tail[i] == v && tail[j] == v;
          assert vs[i + 1] == v && vs[j + 1] == v;
        }
      }
      if exists i, j :: 0 <= i < j < |vs| && vs[i] == v && vs[j] == v {
        var i, j :| 0 <= i < j < |vs| && vs[i] == v && vs[j] == v;
        assert tail[j - 1] == v;
        if i > 0 {
          assert tail[i - 1] == v;
        } else {
          assert v in tail;
        }
      }
    }
  }

  /** `index === 0 || messages[index - 1]?.authorUuid !== item.authorUuid`,
      with `item` the message at `index` of the visible list. */
  predicate IsFirstOfGroup(ms: seq<Message>, index: nat)
    requires index < |ms|
  {
    index == 0 || ms[index - 1].authorUuid != ms[index].authorUuid
  }

  /** The message that opens the group of `ms[index]`: every message from it
      up to `index` has the same author, and it is the last group opener at
      or before `index`. */
  function GroupStart(ms: seq<Message>, index: nat): (start: nat)
    requires index < |ms|
    ensures start <= index
    ensures IsFirstOfGroup(ms, start)
    ensures forall k :: start <= k <= index ==> ms[k].authorUuid == ms[index].authorUuid
    ensures forall k :: start < k <= index ==> !IsFirstOfGroup(ms, k)
  {
    if IsFirstOfGroup(ms, index) then index else GroupStart(ms, index - 1)
  }
}
