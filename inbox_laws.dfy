/** Properties of the mailbox that relate several operations, or an operation to an
    independent description of its result. */
module InboxLaws {
  import opened Results
  import opened Lists
  import opened MessageSets
  import opened MessageParts
  import opened Inbox

  // ----- expunge -----

  /** A message of `s` survives an expunge exactly when it lacks `\Deleted`; no
      survivor carries it. */
  lemma {:induction false} SurvivorsExact(s: seq<Message>, f: map<Message, set<string>>)
    requires Covers(s, f)
    ensures forall i :: 0 <= i < |s| ==> (s[i] in Survivors(s, f) <==> DELETED !in f[s[i]])
    ensures forall m :: m in Survivors(s, f) ==> m in f && DELETED !in f[m]
  {
    if s != [] {
      var n := |s| - 1;
      var pre := s[..n];
      assert Covers(pre, f);
      SurvivorsExact(pre, f);
      forall i | 0 <= i < |s| ensures s[i] in Survivors(s, f) <==> DELETED !in f[s[i]] {
        if i < n {
          assert s[i] == pre[i];
        }
      }
      forall m | m in Survivors(s, f) ensures m in f && DELETED !in f[m] {
        if m !in Survivors(pre, f) {
          assert m == s[n];
        }
      }
    }
  }

  /** The survivors and the reported UIDs together number exactly the messages. */
  lemma {:induction false} ExpungePartition(s: seq<Message>, f: map<Message, set<string>>)
    requires Covers(s, f)
    ensures |Survivors(s, f)| + |DeletedUids(s, f)| == |s|
  {
    if s != [] {
      var n := |s| - 1;
      assert Covers(s[..n], f);
      ExpungePartition(s[..n], f);
    }
  }

  /** Every message flagged `\Deleted` has its UID reported. */
  lemma {:induction false} DeletedUidsComplete(s: seq<Message>, f: map<Message, set<string>>)
    requires Covers(s, f)
    ensures forall i :: 0 <= i < |s| && DELETED in f[s[i]] ==> s[i].uid in DeletedUids(s, f)
  {
    if s != [] {
      var n := |s| - 1;
      var pre := s[..n];
      assert Covers(pre, f);
      DeletedUidsComplete(pre, f);
      forall i | 0 <= i < n && DELETED in f[s[i]] ensures s[i].uid in DeletedUids(s, f) {
        assert s[i] == pre[i];
      }
    }
  }

  /** Every reported UID is that of a message flagged `\Deleted`. */
  lemma {:induction false} DeletedUidsSound(s: seq<Message>, f: map<Message, set<string>>)
    requires Covers(s, f)
    ensures forall u :: u in DeletedUids(s, f) ==> exists i :: 0 <= i < |s| && s[i].uid == u && DELETED in f[s[i]]
  {
    if s != [] {
      var n := |s| - 1;
      var pre := s[..n];
      assert Covers(pre, f);
      DeletedUidsSound(pre, f);
      forall u | u in DeletedUids(s, f)
        ensures exists i :: 0 <= i < |s| && s[i].uid == u && DELETED in f[s[i]]
      {
        if u in DeletedUids(pre, f) {
          var i :| 0 <= i < |pre| && pre[i].uid == u && DELETED in f[pre[i]];
          assert s[i] == pre[i];
        } else {
          assert s[n].uid == u && DELETED in f[s[n]];
        }
      }
    }
  }

  /** When UIDs increase along `s`, every message is either kept or has its UID
      reported, never both. */
  lemma KeptOrReported(s: seq<Message>, f: map<Message, set<string>>)
    requires Covers(s, f) && UidsIncrease(s)
    ensures forall i :: 0 <= i < |s| ==> (s[i] in Survivors(s, f) <==> s[i].uid !in DeletedUids(s, f))
  {
    SurvivorsExact(s, f);
    DeletedUidsComplete(s, f);
    DeletedUidsSound(s, f);
    forall i | 0 <= i < |s| && s[i].uid in DeletedUids(s, f) ensures s[i] !in Survivors(s, f) {
      var j :| 0 <= j < |s| && s[j].uid == s[i].uid && DELETED in f[s[j]];
      assert i == j;
    }
  }

  /** When UIDs increase along `s`, the reported UIDs come out in increasing order. */
  lemma {:induction false} DeletedUidsAscending(s: seq<Message>, f: map<Message, set<string>>)
    requires Covers(s, f) && UidsIncrease(s)
    ensures forall i, j :: 0 <= i < j < |DeletedUids(s, f)| ==> DeletedUids(s, f)[i] < DeletedUids(s, f)[j]
  {
    if s != [] {
      var n := |s| - 1;
      var pre := s[..n];
      assert Covers(pre, f) && UidsIncrease(pre);
      DeletedUidsAscending(pre, f);
      DeletedUidsSound(pre, f);
      var d := DeletedUids(pre, f);
      forall j | 0 <= j < |d| ensures d[j] < s[n].uid {
        assert d[j] in d;
        var i :| 0 <= i < |pre| && pre[i].uid == d[j] && DELETED in f[pre[i]];
        assert s[i] == pre[i];
      }
    }
  }

  /** When nothing in `t` is flagged `\Deleted`, an expunge keeps everything and
      reports nothing. */
  lemma {:induction false} NothingDeleted(t: seq<Message>, f: map<Message, set<string>>)
    requires Covers(t, f) && forall k :: 0 <= k < |t| ==> DELETED !in f[t[k]]
    ensures Survivors(t, f) == t && DeletedUids(t, f) == []
  {
    if t != [] {
      var n := |t| - 1;
      assert Covers(t[..n], f);
      NothingDeleted(t[..n], f);
      assert t[..n] + [t[n]] == t;
    }
  }

  /** Expunging is idempotent: the survivors of an expunge survive a second one, which
      reports nothing. */
  lemma ExpungeIdempotent(s: seq<Message>, f: map<Message, set<string>>)
    requires Covers(s, f)
    ensures Covers(Survivors(s, f), f)
    ensures Survivors(Survivors(s, f), f) == Survivors(s, f)
    ensures DeletedUids(Survivors(s, f), f) == []
  {
    SurvivorsExact(s, f);
    NothingDeleted(Survivors(s, f), f);
  }

  /** Expunging twice in a row, with no store in between: the second call removes
      nothing. */
  method ExpungeTwice(mb: Mailbox) returns (first: seq<nat>, second: seq<nat>)
    requires mb.Valid()
    modifies mb
    ensures second == []
  {
    ghost var s := mb.msgs;
    ghost var f := FlagsOf(s);
    first := mb.Expunge();
    SurvivorsExact(s, f);
    NothingDeleted(mb.msgs, FlagsOf(mb.msgs));
    second := mb.Expunge();
  }

  /** An expunge does not give UIDs back: a message delivered afterwards gets the UID
      `getUIDNext()` announced before the expunge, above every UID the mailbox held. */
  method ExpungeThenDeliver(mb: Mailbox, part: Part, flags: Option<seq<string>>, date: Option<string>, now: string)
    returns (removed: seq<nat>, uid: nat)
    requires mb.Valid()
    modifies mb, mb.counter
    ensures uid == old(mb.UIDNext())
    ensures forall i :: 0 <= i < |old(mb.msgs)| ==> old(mb.msgs[i].uid) < uid
  {
    removed := mb.Expunge();
    mb.AddMessage(part, flags, date, now);
    uid := mb.msgs[|mb.msgs| - 1].uid;
  }

  // ----- store -----

  /** Adding flags and then removing the same flags leaves the flags the message had
      before minus those flags; it restores them exactly when none of them was set. */
  lemma AddThenRemove(o: set<string>, flags: seq<string>)
    ensures Stored(Stored(o, flags, 1), flags, -1) == o - SetOf(flags)
    ensures Stored(Stored(o, flags, 1), flags, -1) == o <==> o !! SetOf(flags)
  {
    var fs := SetOf(flags);
    if o - fs == o {
      forall x | x in o ensures x !in fs {
        assert x in o - fs;
      }
    }
  }

  /** Replacing flags forgets the old ones: two messages stored with mode 0 and the
      same list end with the same flags. */
  lemma ReplaceForgets(o1: set<string>, o2: set<string>, flags: seq<string>)
    ensures Stored(o1, flags, 0) == Stored(o2, flags, 0)
    ensures forall x :: x in Stored(o1, flags, 0) <==> x in flags
  {
  }

  // ----- addressing -----

  /** By sequence number `*` is the message count, so it addresses the last message. */
  lemma SequenceStarIsLast(mb: Mailbox)
    requires mb.msgs != []
    ensures mb.GetMsgs([Span(Star, Star)], false) == Ok(map[|mb.msgs| := mb.msgs[|mb.msgs| - 1]])
  {
    StarIsLast(|mb.msgs|);
    var r := mb.GetMsgs([Span(Star, Star)], false);
    assert AtMost({|mb.msgs|}, |mb.msgs|);
    assert r.Ok? && r.value.Keys == {|mb.msgs|};
    assert r.value[|mb.msgs|] == mb.msgs[|mb.msgs| - 1];
    assert r.value == map[|mb.msgs| := mb.msgs[|mb.msgs| - 1]];
  }

  /** By sequence number, n in 1..count addresses `msgs[n - 1]`, the message whose UID
      `getUID(n)` reports. */
  lemma SequenceNumberAgreesWithGetUID(mb: Mailbox, n: nat)
    requires 1 <= n <= |mb.msgs|
    ensures mb.GetMsgs([Span(Num(n), Num(n))], false) == Ok(map[n := mb.msgs[n - 1]])
    ensures mb.GetUID(n) == Ok(mb.GetMsgs([Span(Num(n), Num(n))], false).value[n].uid)
  {
    SingleNumber(n, |mb.msgs|);
    var r := mb.GetMsgs([Span(Num(n), Num(n))], false);
    assert AtMost({n}, |mb.msgs|);
    assert r.Ok? && r.value.Keys == {n};
    assert r.value[n] == mb.msgs[n - 1];
    assert r.value == map[n := mb.msgs[n - 1]];
  }

  /** By sequence number, a number above the count raises IndexError instead of being
      dropped. */
  lemma SequenceNumberTooLarge(mb: Mailbox, n: nat)
    requires 1 <= |mb.msgs| < n
    ensures mb.GetMsgs([Span(Num(n), Num(n))], false) == Err(IndexError)
  {
    SingleNumber(n, |mb.msgs|);
  }

  /** By sequence number, `1:*` addresses every message under its sequence number. */
  lemma SequenceAll(mb: Mailbox)
    requires mb.msgs != []
    ensures mb.GetMsgs([Span(Num(1), Star)], false).Ok?
    ensures forall n: nat :: n in mb.GetMsgs([Span(Num(1), Star)], false).value <==> 1 <= n <= |mb.msgs|
    ensures forall n :: n in mb.GetMsgs([Span(Num(1), Star)], false).value ==>
              mb.GetMsgs([Span(Num(1), Star)], false).value[n] == mb.msgs[n - 1]
  {
    OneToStar(|mb.msgs|);
  }

  /** By UID, a message's own UID addresses it alone, under its 0-based position. */
  lemma UidAddressesItsMessage(mb: Mailbox, k: nat)
    requires mb.Valid() && k < |mb.msgs|
    ensures mb.GetMsgs([Span(Num(mb.msgs[k].uid), Num(mb.msgs[k].uid))], true) == Ok(map[k := mb.msgs[k]])
  {
    SingleNumber(mb.msgs[k].uid, mb.counter.last);
    var m := mb.GetMsgs([Span(Num(mb.msgs[k].uid), Num(mb.msgs[k].uid))], true).value;
    forall j: nat ensures j in m <==> j == k {
      if j < |mb.msgs| && j != k {
        assert mb.msgs[j].uid != mb.msgs[k].uid;
      }
    }
    assert m.Keys == {k} && m[k] == mb.msgs[k];
    assert m == map[k := mb.msgs[k]];
  }

  /** By UID, `1:*` addresses every message, each under its 0-based position. */
  lemma UidAll(mb: Mailbox)
    requires mb.Valid()
    ensures mb.GetMsgs([Span(Num(1), Star)], true).Ok?
    ensures forall k: nat :: k in mb.GetMsgs([Span(Num(1), Star)], true).value <==> k < |mb.msgs|
    ensures forall k :: k in mb.GetMsgs([Span(Num(1), Star)], true).value ==>
              mb.GetMsgs([Span(Num(1), Star)], true).value[k] == mb.msgs[k]
  {
    if mb.msgs != [] {
      assert 1 <= mb.msgs[0].uid <= mb.counter.last;
      OneToStar(mb.counter.last);
    }
  }

  /** By UID, `*` is the last allocated UID: it addresses the newest message when that
      is still present, and nothing once it has been expunged. */
  lemma UidStar(mb: Mailbox)
    requires mb.Valid()
    ensures mb.GetMsgs([Span(Star, Star)], true).Ok?
    ensures mb.msgs != [] && mb.msgs[|mb.msgs| - 1].uid == mb.counter.last ==>
              mb.GetMsgs([Span(Star, Star)], true).value == map[|mb.msgs| - 1 := mb.msgs[|mb.msgs| - 1]]
    ensures (mb.msgs == [] || mb.msgs[|mb.msgs| - 1].uid != mb.counter.last) ==>
              mb.GetMsgs([Span(Star, Star)], true).value == map[]
  {
    StarIsLast(mb.counter.last);
  }

  // ----- sessions -----

  /** Of two messages, the first flagged `\Deleted` and the second not: an expunge
      keeps the second and reports the first. */
  lemma ExpungeFirstOfTwo(a: Message, b: Message, f: map<Message, set<string>>)
    requires a in f && b in f && DELETED in f[a] && DELETED !in f[b]
    ensures Survivors([a, b], f) == [b] && DeletedUids([a, b], f) == [a.uid]
  {
    var s := [a, b];
    assert Covers(s, f);
    assert s[..0] == [] && s[..2] == s;
    PrefixStep(s, f, 0);
    PrefixStep(s, f, 1);
  }

  /** Two deliveries into a fresh mailbox with a fresh UID allocator: the messages
      get UIDs 1 and 2 and no flags. */
  method DeliverTwo(one: Part, two: Part, now: string) returns (mb: Mailbox, m1: Message, m2: Message)
    ensures fresh(mb) && fresh(mb.counter) && fresh(m1) && fresh(m2)
    ensures mb.Valid() && mb.msgs == [m1, m2] && mb.counter.last == 2
    ensures m1.uid == 1 && m2.uid == 2 && m1.flags == {} && m2.flags == {}
  {
    var counter := new UidCounter();
    mb := new Mailbox(counter, 1000000);
    mb.AddMessage(one, None, None, now);
    mb.AddMessage(two, None, None, now);
    m1, m2 := mb.msgs[0], mb.msgs[1];
    assert mb.msgs == [m1, m2];
  }

  /** `test_delete_with_multiple`: two deliveries into a fresh mailbox, `\Deleted`
      added to message 1, then an expunge: UID 1 is reported, one message is left,
      sequence number 1 now stands for UID 2, and the next UID is 3. */
  method DeleteWithMultiple(one: Part, two: Part, now: string)
    returns (removed: seq<nat>, count: nat, first: Result<nat>, next: nat)
    ensures removed == [1] && count == 1 && first == Ok(2) && next == 3
  {
    var mb, m1, m2 := DeliverTwo(one, two, now);
    SequenceNumberAgreesWithGetUID(mb, 1);
    var stored := mb.Store([Span(Num(1), Num(1))], [DELETED], 1, false);
    assert DELETED in m1.flags && DELETED !in m2.flags;
    ExpungeFirstOfTwo(m1, m2, FlagsOf(mb.msgs));
    removed := mb.Expunge();
    assert mb.msgs == [m2];
    count := mb.MessageCount();
    first := mb.GetUID(1);
    next := mb.UIDNext();
  }
}
