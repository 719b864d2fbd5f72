/** The admin dashboard's derived figures, computed from the fetched public and private
    message lists, and the request its "Make Public" button sends. */
module AdminDashboard {
  import opened Wrappers
  import opened Schema
  import opened Storage

  /** "Total Replies": the reply counts of the public messages, summed from 0. It is 0 exactly
      when no public message has a reply. */
  function TotalReplies(pub: seq<MessageWithReplies>): (r: nat)
    ensures r == 0 <==> forall w :: w in pub ==> w.replies == []
  {
    if pub == [] then 0
    else
      assert forall w :: w in pub <==> w == pub[0] || w in pub[1..];
      |pub[0].replies| + TotalReplies(pub[1..])
  }

  /** The nickname of every reply, in reply order. */
  function NicknamesOf(rs: seq<Reply>): (ns: seq<string>)
    ensures |ns| == |rs|
    ensures forall i :: 0 <= i < |rs| ==> ns[i] == rs[i].nickname
  {
    seq(|rs|, i requires 0 <= i < |rs| => rs[i].nickname)
  }

  /** Each public message's reply nicknames, flattened into one list: one entry per reply, so
      as many entries as "Total Replies". */
  function ReplierNicknames(pub: seq<MessageWithReplies>): (ns: seq<string>)
    ensures |ns| == TotalReplies(pub)
  {
    if pub == [] then [] else NicknamesOf(pub[0].replies) + ReplierNicknames(pub[1..])
  }

  /** The distinct elements of a list, as a JavaScript `Set` built from it keeps them. */
  function Elements(s: seq<string>): set<string>
  {
    set x | x in s
  }

  /** A list has no more distinct elements than entries. */
  lemma {:induction false} ElementsAtMostLength(s: seq<string>)
    ensures |Elements(s)| <= |s|
  {
    if s != [] {
      ElementsAtMostLength(s[1..]);
      assert Elements(s) == {s[0]} + Elements(s[1..]) by {
        assert forall x :: x in s <==> x == s[0] || x in s[1..];
      }
    }
  }

  /** "Active Users": the number of distinct nicknames among the public messages' replies. It
      never exceeds "Total Replies", and is 0 exactly when "Total Replies" is. */
  function ActiveUsers(pub: seq<MessageWithReplies>): (r: nat)
    ensures r <= TotalReplies(pub)
    ensures r == 0 <==> TotalReplies(pub) == 0
  {
    var ns := ReplierNicknames(pub);
    ElementsAtMostLength(ns);
    assert ns != [] ==> ns[0] in Elements(ns);
    |Elements(ns)|
  }

  /** The public list once reply `r` has been added, newest first, to the `k`-th message. */
  function AddReply(pub: seq<MessageWithReplies>, k: nat, r: Reply): (after: seq<MessageWithReplies>)
    requires k < |pub|
    ensures |after| == |pub|
    ensures after[k].message == pub[k].message && after[k].replies == [r] + pub[k].replies
    ensures forall i :: 0 <= i < |pub| && i != k ==> after[i] == pub[i]
  {
    pub[k := pub[k].(replies := [r] + pub[k].replies)]
  }

  /** Adding a reply adds exactly its nickname to the flattened list. */
  lemma {:induction false} AddReplyNicknames(pub: seq<MessageWithReplies>, k: nat, r: Reply)
    requires k < |pub|
    ensures multiset(ReplierNicknames(AddReply(pub, k, r))) == multiset(ReplierNicknames(pub)) + multiset{r.nickname}
  {
    var after := AddReply(pub, k, r);
    if k == 0 {
      assert after[1..] == pub[1..];
      assert NicknamesOf(after[0].replies) == [r.nickname] + NicknamesOf(pub[0].replies);
    } else {
      assert after[1..] == AddReply(pub[1..], k - 1, r);
      AddReplyNicknames(pub[1..], k - 1, r);
    }
  }

  /** A list with one more occurrence of `x` has `x` added to its distinct elements and one more entry. */
  lemma ElementsOfOneMore(a: seq<string>, b: seq<string>, x: string)
    requires multiset(a) == multiset(b) + multiset{x}
    ensures Elements(a) == Elements(b) + {x}
    ensures |a| == |b| + 1
  {
    assert |multiset(a)| == |multiset(b)| + 1;
    forall y
      ensures y in a <==> y in b || y == x
    {
      assert y in a <==> y in multiset(a);
      assert y in b <==> y in multiset(b);
    }
  }

  /** Adding a reply adds exactly its nickname to the distinct nicknames, and one reply to the total. */
  lemma AddReplyElements(pub: seq<MessageWithReplies>, k: nat, r: Reply)
    requires k < |pub|
    ensures Elements(ReplierNicknames(AddReply(pub, k, r))) == Elements(ReplierNicknames(pub)) + {r.nickname}
    ensures TotalReplies(AddReply(pub, k, r)) == TotalReplies(pub) + 1
  {
    AddReplyNicknames(pub, k, r);
    ElementsOfOneMore(ReplierNicknames(AddReply(pub, k, r)), ReplierNicknames(pub), r.nickname);
  }

  /** A reply by someone who has already replied raises "Total Replies" by one and leaves
      "Active Users" as it was. */
  lemma ReplyByKnownNickname(pub: seq<MessageWithReplies>, k: nat, r: Reply)
    requires k < |pub|
    requires r.nickname in ReplierNicknames(pub)
    ensures TotalReplies(AddReply(pub, k, r)) == TotalReplies(pub) + 1
    ensures ActiveUsers(AddReply(pub, k, r)) == ActiveUsers(pub)
  {
    AddReplyElements(pub, k, r);
    assert r.nickname in Elements(ReplierNicknames(pub));
    assert Elements(ReplierNicknames(pub)) + {r.nickname} == Elements(ReplierNicknames(pub));
  }

  /** A reply by a new nickname raises both figures by one. */
  lemma ReplyByNewNickname(pub: seq<MessageWithReplies>, k: nat, r: Reply)
    requires k < |pub|
    requires r.nickname !in ReplierNicknames(pub)
    ensures TotalReplies(AddReply(pub, k, r)) == TotalReplies(pub) + 1
    ensures ActiveUsers(AddReply(pub, k, r)) == ActiveUsers(pub) + 1
  {
    AddReplyElements(pub, k, r);
  }

  /** A nickname is in the flattened list exactly when some listed message has a reply by it. */
  lemma {:induction false} ReplierNicknamesMembers(pub: seq<MessageWithReplies>, n: string)
    ensures n in ReplierNicknames(pub) <==> exists w, x :: w in pub && x in w.replies && x.nickname == n
  {
    if pub != [] {
      ReplierNicknamesMembers(pub[1..], n);
      var own := NicknamesOf(pub[0].replies);
      assert n in ReplierNicknames(pub) <==> n in own || n in ReplierNicknames(pub[1..]);
      if n in own {
        var i :| 0 <= i < |own| && own[i] == n;
        assert pub[0] in pub && pub[0].replies[i] in pub[0].replies;
      }
      if exists w, x :: w in pub && x in w.replies && x.nickname == n {
        var w, x :| w in pub && x in w.replies && x.nickname == n;
        if w == pub[0] {
          var i :| 0 <= i < |w.replies| && w.replies[i] == x;
          assert own[i] == n;
        } else {
          assert w in pub[1..];
        }
      }
    }
  }

  /** A reply listed under a public message is a stored reply to a stored public message. */
  lemma ListedReplyIsStored(pub: seq<MessageWithReplies>, ms: seq<Message>, rs: seq<Reply>, w: MessageWithReplies, x: Reply)
    requires ListsMessages(pub, ms, rs, VisibilityIs(true))
    requires w in pub && x in w.replies
    ensures x in rs && w.message in ms && w.message.isPublic == Some(true) && x.messageId == w.message.id
  {
    var k :| 0 <= k < |pub| && pub[k] == w;
    assert Rows(pub)[k] == w.message;
    ListedIff(pub, ms, rs, VisibilityIs(true));
    assert ListsRepliesOf(w.replies, rs, w.message.id);
    assert multiset(w.replies)[x] > 0;
  }

  /** A stored reply to a stored public message is listed under that message. */
  lemma StoredReplyIsListed(pub: seq<MessageWithReplies>, ms: seq<Message>, rs: seq<Reply>, m: Message, x: Reply)
    requires ListsMessages(pub, ms, rs, VisibilityIs(true))
    requires x in rs && m in ms && m.isPublic == Some(true) && x.messageId == m.id
    ensures exists w :: w in pub && w.message == m && x in w.replies
  {
    ListedIff(pub, ms, rs, VisibilityIs(true));
    assert m in Rows(pub);
    var k :| 0 <= k < |pub| && Rows(pub)[k] == m;
    assert ListsRepliesOf(pub[k].replies, rs, m.id);
    assert multiset(rs)[x] > 0;
    assert x in pub[k].replies;
    assert pub[k] in pub;
  }

  /** Over the store, "Active Users" counts exactly the nicknames that replied to a public
      message; replies to private messages do not count. */
  lemma ActiveUsersAreRepliersToPublicMessages(s: DatabaseStorage, n: string)
    ensures n in Elements(ReplierNicknames(s.GetPublicMessages())) <==>
      exists r, m :: r in s.replies && m in s.messages && m.isPublic == Some(true) && r.messageId == m.id && r.nickname == n
  {
    var pub := s.GetPublicMessages();
    ReplierNicknamesMembers(pub, n);
    if exists w, x :: w in pub && x in w.replies && x.nickname == n {
      var w, x :| w in pub && x in w.replies && x.nickname == n;
      ListedReplyIsStored(pub, s.messages, s.replies, w, x);
    }
    if exists r, m :: r in s.replies && m in s.messages && m.isPublic == Some(true) && r.messageId == m.id && r.nickname == n {
      var r, m :| r in s.replies && m in s.messages && m.isPublic == Some(true) && r.messageId == m.id && r.nickname == n;
      StoredReplyIsListed(pub, s.messages, s.replies, m, r);
    }
  }

  /** One tile of the statistics grid. */
  datatype Stat = Stat(title: string, value: nat)

  /** The four tiles, in display order, from the fetched private and public lists. */
  function Stats(priv: seq<MessageWithReplies>, pub: seq<MessageWithReplies>): (r: seq<Stat>)
    ensures |r| == 4
    ensures r[0] == Stat("Private Messages", |priv|)
    ensures r[1] == Stat("Public Messages", |pub|)
    ensures r[2].title == "Active Users" && r[3].title == "Total Replies"
    ensures r[2].value == |Elements(ReplierNicknames(pub))|
    ensures r[3].value == TotalReplies(pub) == |ReplierNicknames(pub)|
    ensures r[2].value <= r[3].value
  {
    [ Stat("Private Messages", |priv|),
      Stat("Public Messages", |pub|),
      Stat("Active Users", ActiveUsers(pub)),
      Stat("Total Replies", TotalReplies(pub)) ]
  }

  /** The body of the visibility request for one message. */
  datatype VisibilityPatch = VisibilityPatch(messageId: int, isPublic: bool)

  /** "Make Public" on a listed message: its own id, and always `isPublic = true`. */
  function MakePublicRequest(messageId: int): (p: VisibilityPatch)
    ensures p.messageId == messageId && p.isPublic
  {
    VisibilityPatch(messageId, true)
  }

  /** Applying the "Make Public" request takes the message out of the private list and puts
      every row with that id in the public list. */
  lemma MakePublicMovesMessage(ms: seq<Message>, rs: seq<Reply>, messageId: int)
    ensures var p := MakePublicRequest(messageId);
      var after := WithVisibility(ms, p.messageId, p.isPublic);
      && (forall m :: m in Rows(MessagesWhere(after, rs, VisibilityIs(false))) ==> m.id != messageId)
      && (forall m :: m in after && m.id == messageId ==> m in Rows(MessagesWhere(after, rs, VisibilityIs(true))))
  {
    var after := WithVisibility(ms, messageId, true);
    VisibilitySet(ms, messageId, true);
    ListedIff(MessagesWhere(after, rs, VisibilityIs(false)), after, rs, VisibilityIs(false));
    ListedIff(MessagesWhere(after, rs, VisibilityIs(true)), after, rs, VisibilityIs(true));
  }
}
