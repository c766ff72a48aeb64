/**
 The reactions of one chat message (websocket/protocol.rs): a list that refines a set of
 (emoji, user) pairs.
 */
module Reactions {
  import opened Strings

  datatype Reaction = Reaction(emoji: string, users: seq<string>, count: nat)

  ghost predicate ValidReaction(r: Reaction)
  {
    r.users != [] && StrictlySorted(r.users) && r.count == |r.users|
  }

  ghost predicate SortedByEmoji(rs: seq<Reaction>)
  {
    forall i, j :: 0 <= i < j < |rs| ==> Less(rs[i].emoji, rs[j].emoji)
  }

  /** Strictly sorted by emoji, every user list strictly sorted, non-empty and counted. */
  ghost predicate Valid(rs: seq<Reaction>)
  {
    SortedByEmoji(rs) && forall i :: 0 <= i < |rs| ==> ValidReaction(rs[i])
  }

  ghost predicate Reacted(rs: seq<Reaction>, emoji: string, user: string)
  {
    exists i :: 0 <= i < |rs| && rs[i].emoji == emoji && user in rs[i].users
  }

  /** `after` is `before` with the one pair (emoji, user) added or taken away. */
  ghost predicate Toggles(before: seq<Reaction>, after: seq<Reaction>, emoji: string, user: string)
  {
    forall e, u :: Reacted(after, e, u) <==> (Reacted(before, e, u) != (e == emoji && u == user))
  }

  // ----- sorting by emoji

  function InsertByEmoji(r: Reaction, rs: seq<Reaction>): seq<Reaction>
  {
    if rs == [] then [r]
    else if Less(rs[0].emoji, r.emoji) then [rs[0]] + InsertByEmoji(r, rs[1..])
    else [r] + rs
  }

  /** The result of `sort_by` on the emoji. */
  function SortByEmoji(rs: seq<Reaction>): seq<Reaction>
  {
    if rs == [] then [] else InsertByEmoji(rs[0], SortByEmoji(rs[1..]))
  }

  lemma {:induction false} InsertByEmojiElements(r: Reaction, rs: seq<Reaction>)
    ensures forall x :: x in InsertByEmoji(r, rs) <==> x == r || x in rs
  {
    if rs != [] {
      assert rs == [rs[0]] + rs[1..];
      InsertByEmojiElements(r, rs[1..]);
    }
  }

  lemma {:induction false} InsertByEmojiSorted(r: Reaction, rs: seq<Reaction>)
    requires SortedByEmoji(rs) && forall x :: x in rs ==> x.emoji != r.emoji
    ensures SortedByEmoji(InsertByEmoji(r, rs))
  {
    if rs != [] {
      LessTotal(rs[0].emoji, r.emoji);
      if Less(rs[0].emoji, r.emoji) {
        InsertByEmojiSorted(r, rs[1..]);
        InsertByEmojiElements(r, rs[1..]);
        var t := InsertByEmoji(r, rs[1..]);
        forall j | 0 <= j < |t| ensures Less(rs[0].emoji, t[j].emoji) {
          assert t[j] in t;
          if t[j] != r {
            var k :| 0 <= k < |rs[1..]| && rs[1..][k] == t[j];
            assert t[j] == rs[k + 1];
          }
        }
      } else {
        forall j | 0 <= j < |rs| ensures Less(r.emoji, rs[j].emoji) {
          if j > 0 { LessTransitive(r.emoji, rs[0].emoji, rs[j].emoji); }
        }
      }
    }
  }

  lemma {:induction false} SortByEmojiSorts(rs: seq<Reaction>)
    requires forall i, j :: 0 <= i < j < |rs| ==> rs[i].emoji != rs[j].emoji
    ensures SortedByEmoji(SortByEmoji(rs))
    ensures forall x :: x in SortByEmoji(rs) <==> x in rs
  {
    if rs != [] {
      assert rs == [rs[0]] + rs[1..];
      SortByEmojiSorts(rs[1..]);
      InsertByEmojiSorted(rs[0], SortByEmoji(rs[1..]));
      InsertByEmojiElements(rs[0], SortByEmoji(rs[1..]));
    }
  }

  // ----- the toggle

  /** The list without one user. */
  function Without(users: seq<string>, gone: string): seq<string>
  {
    if users == [] then []
    else (if users[0] == gone then [] else [users[0]]) + Without(users[1..], gone)
  }

  lemma {:induction false} WithoutSorted(users: seq<string>, gone: string)
    requires StrictlySorted(users)
    ensures StrictlySorted(Without(users, gone))
    ensures forall u :: u in Without(users, gone) <==> u in users && u != gone
  {
    if users != [] {
      assert users == [users[0]] + users[1..];
      WithoutSorted(users[1..], gone);
      var t := Without(users[1..], gone);
      forall j | 0 <= j < |t| ensures Less(users[0], t[j]) {
        assert t[j] in t;
        var k :| 0 <= k < |users[1..]| && users[1..][k] == t[j];
        assert t[j] == users[k + 1];
      }
    }
  }

  lemma PushSorted(users: seq<string>, user: string)
    requires StrictlySorted(users) && user !in users
    ensures StrictlySorted(Sort(users + [user]))
    ensures forall u :: u in Sort(users + [user]) <==> u in users || u == user
    ensures Sort(users + [user]) != []
  {
    var pushed := users + [user];
    forall i, j | 0 <= i < j < |pushed| ensures pushed[i] != pushed[j] {
      if j < |users| { LessIrreflexive(users[i]); }
    }
    SortSorted(pushed);
    SortElements(pushed);
    forall u ensures u in Sort(pushed) <==> u in users || u == user {
      assert u in Sort(pushed) <==> u in Elements(Sort(pushed));
      assert u in Elements(pushed) <==> u in users || u == user;
    }
  }

  /** The reaction's user list after the toggle. */
  function ToggledUsers(users: seq<string>, user: string): seq<string>
  {
    if user in users then Without(users, user) else Sort(users + [user])
  }

  class ChatMessage {
    var reactions: seq<Reaction>

    constructor ()
      ensures reactions == [] && Valid(reactions)
    {
      reactions := [];
    }

    /** `toggle_reaction_in_message` */
    method ToggleReaction(emoji: string, user: string)
      requires Valid(reactions)
      modifies this
      ensures Valid(reactions)
      ensures Toggles(old(reactions), reactions, emoji, user)
    {
      ghost var before := reactions;
      var index := 0;
      while index < |reactions| && reactions[index].emoji != emoji
        invariant index <= |reactions|
        invariant forall i :: 0 <= i < index ==> reactions[i].emoji != emoji
      {
        index := index + 1;
      }
      if index < |reactions| {
        var users := ToggledUsers(reactions[index].users, user);
        ToggledUsersValid(before[index].users, user);
        reactions := reactions[index := reactions[index].(users := users, count := |users|)];
        if reactions[index].count == 0 {
          RemoveToggles(before, emoji, user, index);
          reactions := reactions[..index] + reactions[index + 1..];
          assert reactions == before[..index] + before[index + 1..];
        } else {
          ReplaceToggles(before, emoji, user, index);
        }
      } else {
        AppendToggles(before, emoji, user);
        reactions := reactions + [Reaction(emoji, [user], 1)];
        reactions := SortByEmoji(reactions);
      }
    }
  }

  lemma ToggledUsersValid(users: seq<string>, user: string)
    requires StrictlySorted(users)
    ensures StrictlySorted(ToggledUsers(users, user))
    ensures forall u :: u in ToggledUsers(users, user) <==> ((u in users) != (u == user))
  {
    if user in users { WithoutSorted(users, user); } else { PushSorted(users, user); }
  }

  lemma OtherEmoji(rs: seq<Reaction>, i: nat, j: nat)
    requires SortedByEmoji(rs) && i < |rs| && j < |rs| && i != j
    ensures rs[i].emoji != rs[j].emoji
  {
    LessIrreflexive(rs[i].emoji);
  }

  lemma ReactedAt(rs: seq<Reaction>, i: nat, user: string)
    requires SortedByEmoji(rs) && i < |rs|
    ensures Reacted(rs, rs[i].emoji, user) <==> user in rs[i].users
  {
    if Reacted(rs, rs[i].emoji, user) {
      var j :| 0 <= j < |rs| && rs[j].emoji == rs[i].emoji && user in rs[j].users;
      if j != i { OtherEmoji(rs, i, j); }
    }
  }

  lemma ReplaceToggles(before: seq<Reaction>, emoji: string, user: string, index: nat)
    requires Valid(before) && index < |before| && before[index].emoji == emoji
    requires ToggledUsers(before[index].users, user) != []
    ensures var users := ToggledUsers(before[index].users, user);
            var after := before[index := Reaction(emoji, users, |users|)];
            Valid(after) && Toggles(before, after, emoji, user)
  {
    var users := ToggledUsers(before[index].users, user);
    var after := before[index := Reaction(emoji, users, |users|)];
    ToggledUsersValid(before[index].users, user);
    assert forall i :: 0 <= i < |before| ==> after[i].emoji == before[i].emoji;
    forall e, u ensures Reacted(after, e, u) <==> (Reacted(before, e, u) != (e == emoji && u == user)) {
      if e == emoji {
        ReactedAt(before, index, u);
        ReactedAt(after, index, u);
      } else {
        assert forall i :: 0 <= i < |before| && before[i].emoji == e ==> after[i] == before[i];
      }
    }
  }

  lemma RemoveToggles(before: seq<Reaction>, emoji: string, user: string, index: nat)
    requires Valid(before) && index < |before| && before[index].emoji == emoji
    requires ToggledUsers(before[index].users, user) == []
    ensures var after := before[..index] + before[index + 1..];
            Valid(after) && Toggles(before, after, emoji, user)
  {
    var after := before[..index] + before[index + 1..];
    ToggledUsersValid(before[index].users, user);
    assert forall i :: 0 <= i < index ==> after[i] == before[i];
    assert forall i :: index <= i < |after| ==> after[i] == before[i + 1];
    forall e, u ensures Reacted(after, e, u) <==> (Reacted(before, e, u) != (e == emoji && u == user)) {
      if e == emoji {
        ReactedAt(before, index, u);
        assert u in before[index].users <==> u == user;
        forall i | 0 <= i < |after| ensures after[i].emoji != emoji {
          OtherEmoji(before, if i < index then i else i + 1, index);
        }
      } else {
        forall i | 0 <= i < |before| && before[i].emoji == e ensures before[i] in after {
          assert before[i] == after[if i < index then i else i - 1];
        }
      }
    }
  }

  lemma AppendToggles(before: seq<Reaction>, emoji: string, user: string)
    requires Valid(before) && forall i :: 0 <= i < |before| ==> before[i].emoji != emoji
    ensures var after := SortByEmoji(before + [Reaction(emoji, [user], 1)]);
            Valid(after) && Toggles(before, after, emoji, user)
  {
    var added := Reaction(emoji, [user], 1);
    var pushed := before + [added];
    var after := SortByEmoji(pushed);
    forall i, j | 0 <= i < j < |pushed| ensures pushed[i].emoji != pushed[j].emoji {
      if j < |before| { OtherEmoji(before, i, j); }
    }
    SortByEmojiSorts(pushed);
    assert ValidReaction(added);
    forall i | 0 <= i < |after| ensures ValidReaction(after[i]) {
      assert after[i] in after;
    }
    forall e, u ensures Reacted(after, e, u) <==> (Reacted(before, e, u) != (e == emoji && u == user)) {
      assert Reacted(after, e, u) <==> Reacted(pushed, e, u) by { SameElementsSamePairs(after, pushed, e, u); }
      assert pushed[|before|] == added;
      assert forall i :: 0 <= i < |before| ==> pushed[i] == before[i];
    }
  }

  lemma SameElementsSamePairs(a: seq<Reaction>, b: seq<Reaction>, e: string, u: string)
    requires forall x :: x in a <==> x in b
    ensures Reacted(a, e, u) <==> Reacted(b, e, u)
  {
    if Reacted(a, e, u) {
      var i :| 0 <= i < |a| && a[i].emoji == e && u in a[i].users;
      assert a[i] in b;
    }
    if Reacted(b, e, u) {
      var i :| 0 <= i < |b| && b[i].emoji == e && u in b[i].users;
      assert b[i] in a;
    }
  }

  // ----- a valid list is determined by its pairs

  ghost function Emojis(rs: seq<Reaction>): seq<string>
  {
    seq(|rs|, i requires 0 <= i < |rs| => rs[i].emoji)
  }

  lemma EmojisReacted(rs: seq<Reaction>, e: string)
    requires Valid(rs)
    ensures e in Elements(Emojis(rs)) <==> exists u :: Reacted(rs, e, u)
  {
    if e in Elements(Emojis(rs)) {
      var i :| 0 <= i < |rs| && Emojis(rs)[i] == e;
      assert Reacted(rs, e, rs[i].users[0]);
    }
    if exists u :: Reacted(rs, e, u) {
      var u :| Reacted(rs, e, u);
      var i :| 0 <= i < |rs| && rs[i].emoji == e && u in rs[i].users;
      assert Emojis(rs)[i] == e;
    }
  }

  lemma DeterminedByPairs(a: seq<Reaction>, b: seq<Reaction>)
    requires Valid(a) && Valid(b)
    requires forall e, u :: Reacted(a, e, u) <==> Reacted(b, e, u)
    ensures a == b
  {
    forall e ensures e in Elements(Emojis(a)) <==> e in Elements(Emojis(b)) {
      EmojisReacted(a, e);
      EmojisReacted(b, e);
    }
    assert Elements(Emojis(a)) == Elements(Emojis(b));
    StrictlySortedUnique(Emojis(a), Emojis(b));
    assert |a| == |Emojis(a)| == |b|;
    forall i | 0 <= i < |a| ensures a[i] == b[i] {
      assert Emojis(a)[i] == Emojis(b)[i];
      forall u ensures u in Elements(a[i].users) <==> u in Elements(b[i].users) {
        ReactedAt(a, i, u);
        ReactedAt(b, i, u);
      }
      assert Elements(a[i].users) == Elements(b[i].users);
      StrictlySortedUnique(a[i].users, b[i].users);
    }
  }

  /** Toggling the same pair twice restores the very same list. */
  lemma ToggleTwiceRestores(r0: seq<Reaction>, r1: seq<Reaction>, r2: seq<Reaction>, emoji: string, user: string)
    requires Valid(r0) && Valid(r2)
    requires Toggles(r0, r1, emoji, user) && Toggles(r1, r2, emoji, user)
    ensures r2 == r0
  {
    DeterminedByPairs(r2, r0);
  }

  /** Any two toggles commute: both orders end in the very same list. */
  lemma TogglesCommute(start: seq<Reaction>,
                       a1: seq<Reaction>, a2: seq<Reaction>, b1: seq<Reaction>, b2: seq<Reaction>,
                       e: string, u: string, f: string, v: string)
    requires Valid(a2) && Valid(b2)
    requires Toggles(start, a1, e, u) && Toggles(a1, a2, f, v)
    requires Toggles(start, b1, f, v) && Toggles(b1, b2, e, u)
    ensures a2 == b2
  {
    DeterminedByPairs(a2, b2);
  }
}
