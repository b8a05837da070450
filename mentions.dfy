/** The compose box's @-mentions: splitting the text on single spaces, the
    trigger that opens the picker when the last word starts with "@", the
    case-insensitive candidate filter over the participant directory, and
    the insertion of the picked name in place of the last word. */
module Mentions {
  import opened ChatTypes

  /** `s.split(" ")`: the pieces between single spaces, none of which holds a
      space; empty pieces are kept. */
  function Split(s: string): (words: seq<string>)
    ensures |words| >= 1
    ensures forall k :: 0 <= k < |words| ==> ' ' !in words[k]
  {
    if s == [] then [[]]
    else
      var words := Split(s[..|s| - 1]);
      var c := s[|s| - 1];
      assert s == s[..|s| - 1] + [c];
      if c == ' ' then words + [[]]
      else words[..|words| - 1] + [words[|words| - 1] + [c]]
  }

  /** There is one more piece than there are spaces. */
  lemma {:induction false} SplitCount(s: string)
    ensures |Split(s)| == multiset(s)[' '] + 1
  {
    if s != [] {
      var prefix := s[..|s| - 1];
      assert s == prefix + [s[|s| - 1]];
      SplitCount(prefix);
    }
  }

  /** `words.join(" ")` for a non-empty list of words. */
  function Join(words: seq<string>): string
    requires |words| >= 1
  {
    if |words| == 1 then words[0]
    else Join(words[..|words| - 1]) + " " + words[|words| - 1]
  }

  lemma {:induction false} JoinExtendLast(words: seq<string>, c: char)
    requires |words| >= 1
    ensures Join(words[..|words| - 1] + [words[|words| - 1] + [c]]) == Join(words) + [c]
  {
    var n := |words|;
    var ext := words[..n - 1] + [words[n - 1] + [c]];
    if n > 1 {
      assert ext[..n - 1] == words[..n - 1];
    }
  }

  /** Joining the pieces with single spaces gives back the text. */
  lemma {:induction false} JoinSplit(s: string)
    ensures Join(Split(s)) == s
  {
    if s != [] {
      var prefix, c := s[..|s| - 1], s[|s| - 1];
      assert s == prefix + [c];
      JoinSplit(prefix);
      var words := Split(prefix);
      if c == ' ' {
        assert (words + [[]])[..|words|] == words;
      } else {
        JoinExtendLast(words, c);
      }
    }
  }

  lemma {:induction false} SplitAppendWord(t: string, w: string)
    requires ' ' !in w
    ensures Split(t + " " + w) == Split(t) + [w]
  {
    if w == [] {
      assert t + " " + w == t + " ";
      assert (t + " ")[..|t|] == t;
    } else {
      var w', c := w[..|w| - 1], w[|w| - 1];
      assert w == w' + [c];
      SplitAppendWord(t, w');
      var s := t + " " + w;
      assert s[..|s| - 1] == t + " " + w';
      var words := Split(t) + [w'];
      assert words[..|words| - 1] == Split(t);
    }
  }

  lemma {:induction false} SplitWord(w: string)
    requires ' ' !in w
    ensures Split(w) == [w]
  {
    if w != [] {
      var w', c := w[..|w| - 1], w[|w| - 1];
      assert w == w' + [c];
      SplitWord(w');
    }
  }

  /** Splitting words joined with single spaces gives back the words, as
      long as no word contains a space. */
  lemma {:induction false} SplitJoin(words: seq<string>)
    requires |words| >= 1
    requires forall k :: 0 <= k < |words| ==> ' ' !in words[k]
    ensures Split(Join(words)) == words
  {
    var n := |words|;
    if n == 1 {
      SplitWord(words[0]);
      assert words == [words[0]];
    } else {
      var kept, last := words[..n - 1], words[n - 1];
      assert forall k :: 0 <= k < n - 1 ==> kept[k] == words[k];
      SplitJoin(kept);
      var t := Join(kept);
      assert Join(words) == t + " " + last;
      assert ' ' !in last;
      SplitAppendWord(t, last);
      assert kept + [last] == words;
    }
  }

  lemma {:induction false} LastPieceIsTail(s: string)
    ensures var words := Split(s); var w := words[|words| - 1];
      && |w| <= |s|
      && s[|s| - |w|..] == w
      && (|w| < |s| ==> s[|s| - |w| - 1] == ' ')
  {
    if s != [] {
      var prefix, c := s[..|s| - 1], s[|s| - 1];
      assert s == prefix + [c];
      LastPieceIsTail(prefix);
    }
  }

  /** `text.split(" ").pop()`: the text after its last space (the whole text
      when it has none). */
  function LastWord(text: string): (w: string)
    ensures ' ' !in w
    ensures |w| <= |text| && text[|text| - |w|..] == w
    ensures |w| < |text| ==> text[|text| - |w| - 1] == ' '
  {
    var words := Split(text);
    LastPieceIsTail(text);
    words[|words| - 1]
  }

  /** ASCII `toLowerCase` of one character. */
  function LowerChar(c: char): char
  {
    if 'A' <= c <= 'Z' then (c as int + 32) as char else c
  }

  /** ASCII `toLowerCase`. */
  function Lower(s: string): (r: string)
    ensures |r| == |s|
    ensures forall i :: 0 <= i < |s| ==> r[i] == LowerChar(s[i])
  {
    seq(|s|, i requires 0 <= i < |s| => LowerChar(s[i]))
  }

  /** `s.includes(q)`: `q` occurs in `s` at some offset. */
  predicate Contains(s: string, q: string)
  {
    exists i :: 0 <= i <= |s| - |q| && q <= s[i..]
  }

  /** Position `k` of `text` holds an "@" that starts the last word. */
  ghost predicate AtTrigger(text: string, k: int)
  {
    && 0 <= k < |text|
    && text[k] == '@'
    && (k == 0 || text[k - 1] == ' ')
    && forall j :: k < j < |text| ==> text[j] != ' '
  }

  /** An "@" that starts the last word sits where LastWord begins. */
  lemma TriggerStartsLastWord(text: string, k: int)
    requires AtTrigger(text, k)
    ensures k == |text| - |LastWord(text)|
  {
  }

  /** The state of the mention picker: whether it shows and its query. */
  datatype MentionState = MentionState(show: bool, query: string)

  /** The picker state set by `onChangeText`: it opens exactly when the last
      word starts with "@", and its query is the rest of the text after that
      "@", lower-cased; otherwise it closes with an empty query. */
  function MentionTrigger(text: string): (m: MentionState)
    ensures m.show <==> exists k :: AtTrigger(text, k)
    ensures m.show ==> exists k :: AtTrigger(text, k) && m.query == Lower(text[k + 1..])
    ensures !m.show ==> m.query == []
  {
    var w := LastWord(text);
    var p := |text| - |w|;
    assert forall j :: p <= j < |text| ==> text[j] == w[j - p];
    if |w| > 0 && w[0] == '@' then
      assert AtTrigger(text, p);
      assert w[1..] == text[p + 1..];
      MentionState(true, Lower(w[1..]))
    else
      forall k | AtTrigger(text, k) ensures k == p {
        TriggerStartsLastWord(text, k);
      }
      MentionState(false, [])
  }

  /** `participants.filter((p) => p.name.toLowerCase().includes(query))`. */
  function Candidates(ps: seq<Participant>, query: string): (r: seq<Participant>)
    ensures |r| <= |ps|
    ensures forall p :: p in r <==> p in ps && Contains(Lower(p.name), query)
  {
    if ps == [] then []
    else
      assert ps == [ps[0]] + ps[1..];
      (if Contains(Lower(ps[0].name), query) then [ps[0]] else []) + Candidates(ps[1..], query)
  }

  /** The filter keeps directory order: filtering a concatenation filters
      each part. */
  lemma {:induction false} CandidatesAppend(a: seq<Participant>, b: seq<Participant>, query: string)
    ensures Candidates(a + b, query) == Candidates(a, query) + Candidates(b, query)
  {
    if a != [] {
      assert (a + b)[1..] == a[1..] + b;
      CandidatesAppend(a[1..], b, query);
    } else {
      assert a + b == b;
    }
  }

  /** Right after typing "@" the query is empty and every participant is a
      candidate, in directory order. */
  lemma {:induction false} EmptyQueryKeepsAll(ps: seq<Participant>)
    ensures Candidates(ps, []) == ps
  {
    if ps != [] {
      assert [] <= Lower(ps[0].name)[0..];
      EmptyQueryKeepsAll(ps[1..]);
      assert [ps[0]] + ps[1..] == ps;
    }
  }

  /** The compose text after picking `name`: the words of the text with the
      last one dropped, then "@name", joined with spaces, then a space. */
  function InsertMention(text: string, name: string): string
  {
    var words := Split(text);
    Join(words[..|words| - 1] + ["@" + name]) + " "
  }

  /** Picking a participant replaces the last word of the text, and only it,
      by "@" and the name, followed by a space. */
  lemma MentionReplacesLastWord(text: string, name: string)
    ensures InsertMention(text, name) == text[..|text| - |LastWord(text)|] + "@" + name + " "
  {
    var words := Split(text);
    var n := |words|;
    var w := words[n - 1];
    JoinSplit(text);
    var kept := words[..n - 1];
    if n > 1 {
      assert text == Join(kept) + " " + w;
      assert text[..|text| - |w|] == Join(kept) + " ";
      assert (kept + ["@" + name])[..n - 1] == kept;
    } else {
      assert kept + ["@" + name] == ["@" + name];
    }
  }
}
