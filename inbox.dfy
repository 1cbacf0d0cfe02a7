/** The in-memory IMAP mailbox: the UID allocator, messages with their mutable flag
    sets, and the mailbox holding messages in arrival order (RFC 3501 sections 2.3.1.1
    and 2.3.1.2: a message's sequence number is its position plus one, its UID is
    allocated once and never reused). */
module Inbox {
  import opened Results
  import opened Lists
  import opened MessageSets
  import opened MessageParts

  const SEEN := "\\Seen"
  const UNSEEN := "\\Unseen"
  const DELETED := "\\Deleted"
  const FLAGGED := "\\Flagged"
  const ANSWERED := "\\Answered"
  const RECENT := "\\Recent"

  /** The process-wide UID generator: `last` is the most recently allocated UID
      (0 before any allocation), `issued` the UIDs handed out so far. */
  class UidCounter {
    var last: nat
    ghost var issued: seq<nat>

    ghost predicate Valid()
      reads this
    {
      |issued| == last && forall i :: 0 <= i < |issued| ==> issued[i] == i + 1
    }

    constructor ()
      ensures Valid() && last == 0 && issued == []
    {
      last := 0;
      issued := [];
    }

    /** `get_counter()`: the next UID, larger than every UID handed out before. */
    method Next() returns (uid: nat)
      requires Valid()
      modifies this
      ensures Valid()
      ensures uid == last == old(last) + 1
      ensures issued == old(issued) + [uid]
      ensures uid !in old(issued) && forall u :: u in old(issued) ==> u < uid
    {
      last := last + 1;
      issued := issued + [last];
      uid := last;
    }
  }

  /** How `store` changes one message's flags: mode 0 replaces them, mode 1 adds,
      mode -1 removes, any other mode leaves them alone. */
  function Stored(old_flags: set<string>, flags: seq<string>, mode: int): (r: set<string>)
    ensures mode == 0 ==> forall x :: x in r <==> x in flags
    ensures mode == 1 ==> forall x :: x in r <==> x in old_flags || x in flags
    ensures mode == -1 ==> forall x :: x in r <==> x in old_flags && x !in flags
    ensures mode != 0 && mode != 1 && mode != -1 ==> r == old_flags
  {
    if mode == 0 then SetOf(flags)
    else if mode == 1 then old_flags + SetOf(flags)
    else if mode == -1 then old_flags - SetOf(flags)
    else old_flags
  }

  /** A message of the mailbox. Its UID, date and document are fixed at delivery;
      its flags change. */
  class Message {
    const uid: nat
    var flags: set<string>
    const date: string
    const part: Part

    /** `Message(fp, flags, date)`: draws its UID from `counter`. */
    constructor (counter: UidCounter, part: Part, flags: seq<string>, date: string)
      requires counter.Valid()
      modifies counter
      ensures counter.Valid() && counter.last == old(counter.last) + 1
      ensures counter.issued == old(counter.issued) + [uid]
      ensures uid == counter.last && uid !in old(counter.issued)
      ensures this.flags == SetOf(flags) && this.date == date && this.part == part
    {
      var u := counter.Next();
      uid := u;
      this.flags := SetOf(flags);
      this.date := date;
      this.part := part;
    }

    /** The inner loop of `store` for modes other than 0: flag by flag, add it
        (mode 1) when absent or remove it (mode -1) when present. */
    method UpdateFlags(flags: seq<string>, mode: int)
      requires mode != 0
      modifies this
      ensures this.flags == Stored(old(this.flags), flags, mode)
    {
      var i := 0;
      while i < |flags|
        invariant 0 <= i <= |flags|
        invariant this.flags == Stored(old(this.flags), flags[..i], mode)
      {
        var flag := flags[i];
        assert SetOf(flags[..i + 1]) == SetOf(flags[..i]) + {flag} by {
          assert flags[..i + 1] == flags[..i] + [flag];
        }
        if mode == 1 && flag !in this.flags {
          this.flags := this.flags + {flag};
        } else if mode == -1 && flag in this.flags {
          this.flags := this.flags - {flag};
        }
        i := i + 1;
      }
      assert flags[..i] == flags;
    }
  }

  /** A change-notification subscriber; the mailbox only registers it. */
  class Listener {
  }

  type UidValidity = x: int | 1000000 <= x <= 9999999 witness 1000000

  /** The flags of every message of `s`, as a map from message to flag set. */
  ghost function FlagsOf(s: seq<Message>): (f: map<Message, set<string>>)
    reads s
    ensures forall k :: 0 <= k < |s| ==> s[k] in f && f[s[k]] == s[k].flags
  {
    map m | m in s :: m.flags
  }

  /** `f` gives flags for every message of `s`. */
  ghost predicate Covers(s: seq<Message>, f: map<Message, set<string>>) {
    forall k :: 0 <= k < |s| ==> s[k] in f
  }

  /** The messages of `s` an expunge keeps, in their order, when `f` gives their flags. */
  ghost function Survivors(s: seq<Message>, f: map<Message, set<string>>): (r: seq<Message>)
    requires Covers(s, f)
    ensures forall m :: m in r ==> m in s
  {
    if s == [] then []
    else
      var n := |s| - 1;
      Survivors(s[..n], f) + if DELETED in f[s[n]] then [] else [s[n]]
  }

  /** The UIDs of the messages of `s` flagged `\Deleted` by `f`, in arrival order. */
  ghost function DeletedUids(s: seq<Message>, f: map<Message, set<string>>): (r: seq<nat>)
    requires Covers(s, f)
  {
    if s == [] then []
    else
      var n := |s| - 1;
      DeletedUids(s[..n], f) + if DELETED in f[s[n]] then [s[n].uid] else []
  }

  /** UIDs strictly increase along `s`; in particular no message occurs twice. */
  ghost predicate UidsIncrease(s: seq<Message>) {
    forall i, j :: 0 <= i < j < |s| ==> s[i].uid < s[j].uid
  }

  /** The number of messages of `s` carrying `flag`. */
  function CountFlagged(s: seq<Message>, flag: string): (r: nat)
    reads s
    ensures r == |set i | 0 <= i < |s| && flag in s[i].flags|
    ensures r <= |s|
  {
    if s == [] then 0
    else
      var n := |s| - 1;
      var r := CountFlagged(s[..n], flag) + if flag in s[n].flags then 1 else 0;
      assert (set i | 0 <= i < |s| && flag in s[i].flags)
          == (set i | 0 <= i < n && flag in s[..n][i].flags) + if flag in s[n].flags then {n} else {};
      r
  }

  class Mailbox {
    const counter: UidCounter
    var msgs: seq<Message>
    var listeners: seq<Listener>
    const uidValidity: UidValidity

    ghost predicate Valid()
      reads this, counter
    {
      && counter.Valid()
      && UidsIncrease(msgs)
      && forall i :: 0 <= i < |msgs| ==> 1 <= msgs[i].uid <= counter.last
    }

    /** `MemoryIMAPMailbox()`: empty, with the given UID validity (drawn at random by
        the source) and the shared counter. */
    constructor (counter: UidCounter, uidValidity: UidValidity)
      requires counter.Valid()
      ensures Valid()
      ensures this.counter == counter && this.uidValidity == uidValidity
      ensures msgs == [] && listeners == []
    {
      this.counter := counter;
      this.uidValidity := uidValidity;
      msgs := [];
      listeners := [];
    }

    /** `addMessage(msg_fp, flags, date)`: appends one new message, whose UID is one more
        than the last allocated UID, with flags `set(flags or [])` and the given date or
        `now`. Earlier messages are untouched. */
    method AddMessage(part: Part, flags: Option<seq<string>>, date: Option<string>, now: string)
      requires Valid()
      modifies this, counter
      ensures Valid()
      ensures counter.last == old(counter.last) + 1
      ensures |msgs| == |old(msgs)| + 1 && msgs[..|old(msgs)|] == old(msgs)
      ensures fresh(msgs[|old(msgs)|])
      ensures msgs[|old(msgs)|].uid == counter.last
      ensures msgs[|old(msgs)|].flags == SetOf(flags.GetOr([]))
      ensures msgs[|old(msgs)|].date == date.GetOr(now) && msgs[|old(msgs)|].part == part
      ensures forall u :: u in old(counter.issued) ==> u < msgs[|old(msgs)|].uid
      ensures forall i :: 0 <= i < |old(msgs)| ==> msgs[i].flags == old(msgs[i].flags)
      ensures listeners == old(listeners)
    {
      var msg := new Message(counter, part, flags.GetOr([]), date.GetOr(now));
      msgs := msgs + [msg];
    }

    /** `_get_msgs(msg_set, uid)`. An empty mailbox gives no messages. By UID, `*` is
        the last allocated UID and the result holds exactly the messages whose UID is in
        the set, keyed by their 0-based position; absent UIDs are dropped. By sequence
        number, `*` is the message count and every number n maps to `msgs[n - 1]`
        (Python indexing, so 0 gives the last message); a number above the count
        raises IndexError. */
    function GetMsgs(ms: MessageSet, byUid: bool): (r: Result<map<nat, Message>>)
      reads this, counter
      ensures msgs == [] ==> r == Ok(map[])
      ensures r.Ok? ==> forall k :: k in r.value ==> k <= |msgs| && r.value[k] in msgs
      ensures msgs != [] && byUid ==> r.Ok?
      ensures msgs != [] && byUid && r.Ok? ==>
        forall k: nat :: k in r.value <==> k < |msgs| && msgs[k].uid in Resolve(ms, counter.last)
      ensures msgs != [] && byUid && r.Ok? ==> forall k :: k in r.value ==> r.value[k] == msgs[k]
      ensures msgs != [] && !byUid ==> (r.Ok? <==> AtMost(Resolve(ms, |msgs|), |msgs|))
      ensures msgs != [] && !byUid && r.Err? ==> r.error == IndexError
      ensures msgs != [] && !byUid && r.Ok? ==> r.value.Keys == Resolve(ms, |msgs|)
      ensures msgs != [] && !byUid && r.Ok? ==>
        forall n :: n in r.value ==> r.value[n] == if n == 0 then msgs[|msgs| - 1] else msgs[n - 1]
    {
      if msgs == [] then Ok(map[])
      else if byUid then Ok(SelectByUid(msgs, Resolve(ms, counter.last)))
      else SelectBySequence(msgs, Resolve(ms, |msgs|))
    }

    /** `fetch(msg_set, uid)`: the entries of `_get_msgs` as a list, in ascending key
        order. */
    function Fetch(ms: MessageSet, byUid: bool): (r: Result<seq<(nat, Message)>>)
      reads this, counter
      ensures r.Err? <==> GetMsgs(ms, byUid).Err?
      ensures r.Ok? ==> forall p :: p in r.value ==> p.0 in GetMsgs(ms, byUid).value && GetMsgs(ms, byUid).value[p.0] == p.1
      ensures r.Ok? ==> forall k :: k in GetMsgs(ms, byUid).value ==> (k, GetMsgs(ms, byUid).value[k]) in r.value
      ensures r.Ok? ==> forall i, j :: 0 <= i < j < |r.value| ==> r.value[i].0 < r.value[j].0
    {
      match GetMsgs(ms, byUid)
      case Err(e) => Err(e)
      case Ok(m) => Ok(Items(m, 0, |msgs| + 1))
    }

    /** `getHierarchicalDelimiter()` */
    function HierarchicalDelimiter(): (r: string)
      ensures r == "."
    {
      "."
    }

    /** `getFlags()`: the six system flags the mailbox advertises. */
    function SupportedFlags(): (r: seq<string>)
      ensures |r| == 6 && forall i, j :: 0 <= i < j < |r| ==> r[i] != r[j]
      ensures SEEN in r && UNSEEN in r && DELETED in r && FLAGGED in r && ANSWERED in r && RECENT in r
    {
      [SEEN, UNSEEN, DELETED, FLAGGED, ANSWERED, RECENT]
    }

    /** `getMessageCount()` */
    function MessageCount(): (r: nat)
      reads this
      ensures r == |msgs|
    {
      |msgs|
    }

    /** `getRecentCount()`: messages carrying `\Recent`. */
    function RecentCount(): (r: nat)
      reads this, msgs
      ensures r == |set i | 0 <= i < |msgs| && RECENT in msgs[i].flags|
      ensures r <= |msgs|
    {
      CountFlagged(msgs, RECENT)
    }

    /** `getUnseenCount()`: messages carrying `\Unseen` (not: messages lacking `\Seen`). */
    function UnseenCount(): (r: nat)
      reads this, msgs
      ensures r == |set i | 0 <= i < |msgs| && UNSEEN in msgs[i].flags|
      ensures r <= |msgs|
    {
      CountFlagged(msgs, UNSEEN)
    }

    /** `isWriteable()` */
    function IsWriteable(): (r: bool)
      ensures r
    {
      true
    }

    /** `getUIDValidity()` */
    function GetUIDValidity(): (r: int)
      ensures r == uidValidity
      ensures 1000000 <= r <= 9999999
    {
      uidValidity
    }

    /** `getUID(n)`: the UID of the message with sequence number n; Python indexing,
        so 0 gives the last message and a number above the count raises. */
    function GetUID(n: nat): (r: Result<nat>)
      reads this
      ensures r.Ok? <==> n <= |msgs| && msgs != []
      ensures 1 <= n <= |msgs| ==> r == Ok(msgs[n - 1].uid)
      ensures n == 0 && msgs != [] ==> r == Ok(msgs[|msgs| - 1].uid)
      ensures r.Err? ==> r.error == IndexError
    {
      match Index(msgs, n - 1)
      case Ok(m) => Ok(m.uid)
      case Err(e) => Err(e)
    }

    /** `getUIDNext()`: one more than the last allocated UID, so above every UID any
        message of the mailbox has. */
    function UIDNext(): (r: nat)
      reads this, counter
      ensures r == counter.last + 1
      ensures Valid() ==> forall i :: 0 <= i < |msgs| ==> msgs[i].uid < r
    {
      counter.last + 1
    }

    /** `addListener(listener)` */
    method AddListener(listener: Listener) returns (ok: bool)
      modifies this
      ensures listeners == old(listeners) + [listener] && ok
      ensures msgs == old(msgs)
    {
      listeners := listeners + [listener];
      ok := true;
    }

    /** `removeListener(listener)`: drops its first registration; ValueError when it
        has none. */
    method RemoveListener(listener: Listener) returns (r: Result<bool>)
      modifies this
      ensures r.Err? <==> listener !in old(listeners)
      ensures r.Err? ==> r.error == ValueError && listeners == old(listeners)
      ensures r.Ok? ==> r.value && listeners == RemoveFirst(old(listeners), listener)
      ensures msgs == old(msgs)
    {
      match Remove(listeners, listener)
      case Err(e) =>
        r := Err(e);
      case Ok(rest) =>
        listeners := rest;
        r := Ok(true);
    }

    /** `store(msg_set, flags, mode, uid)`: applies `Stored` to the flags of every
        addressed message, and returns each addressed key with its message's new flags.
        Unaddressed messages and the message list are untouched; when `_get_msgs`
        raises, nothing changes. */
    method Store(ms: MessageSet, flags: seq<string>, mode: int, byUid: bool) returns (r: Result<map<nat, set<string>>>)
      modifies msgs
      ensures msgs == old(msgs) && counter.last == old(counter.last)
      ensures old(Valid()) ==> Valid()
      ensures r.Err? <==> GetMsgs(ms, byUid).Err?
      ensures r.Err? ==> r.error == GetMsgs(ms, byUid).error
      ensures r.Err? ==> forall i :: 0 <= i < |msgs| ==> msgs[i].flags == old(msgs[i].flags)
      ensures r.Ok? ==> var m := GetMsgs(ms, byUid).value;
        && r.value.Keys == m.Keys
        && (forall k :: k in m ==> r.value[k] == m[k].flags == Stored(old(m[k].flags), flags, mode))
        && (forall i :: 0 <= i < |msgs| ==>
              msgs[i].flags == if msgs[i] in m.Values then Stored(old(msgs[i].flags), flags, mode) else old(msgs[i].flags))
    {
      var addressed := GetMsgs(ms, byUid);
      if addressed.Err? {
        return Err(addressed.error);
      }
      var m := addressed.value;
      var result := StoreFlags(m, flags, mode);
      r := Ok(result);
    }

    /** `expunge()`: removes every message flagged `\Deleted`, keeping the others in
        their order, and returns the removed UIDs in arrival order. The UID allocator is
        untouched. */
    method Expunge() returns (removed: seq<nat>)
      requires Valid()
      modifies this
      ensures Valid()
      ensures msgs == Survivors(old(msgs), old(FlagsOf(msgs)))
      ensures removed == DeletedUids(old(msgs), old(FlagsOf(msgs)))
      ensures counter.last == old(counter.last) && listeners == old(listeners)
    {
      ghost var f := FlagsOf(msgs);
      SurvivorsKeepOrder(msgs, f);
      SurvivorsKeepUids(msgs, f, counter.last);
      var kept;
      kept, removed := ExpungeList(msgs, f);
      msgs := kept;
    }

    /** `destroy()`: the mailbox cannot be removed; it always fails and changes nothing. */
    method Destroy() returns (r: Result<()>)
      ensures r == Err(PermissionDenied)
    {
      r := Err(PermissionDenied);
    }
  }

  /** The loop of `expunge()` over a copy `s` of the message list: each message
      flagged `\Deleted` is removed from the list under edit by identity and its UID
      recorded. `f` holds the flags, as read at the start. */
  method ExpungeList(s: seq<Message>, ghost f: map<Message, set<string>>)
    returns (kept: seq<Message>, removed: seq<nat>)
    requires UidsIncrease(s) && Covers(s, f)
    requires forall k :: 0 <= k < |s| ==> s[k].flags == f[s[k]]
    ensures kept == Survivors(s, f) && removed == DeletedUids(s, f)
  {
    kept, removed := s, [];
    var i := 0;
    while i < |s|
      invariant 0 <= i <= |s|
      invariant kept == Survivors(s[..i], f) + s[i..]
      invariant removed == DeletedUids(s[..i], f)
    {
      var msg := s[i];
      PrefixStep(s, f, i);
      if DELETED in msg.flags {
        SurvivorsExclude(s, f, i);
        DropStep(s, f, i);
        kept := RemoveFirst(kept, msg);
        removed := removed + [msg.uid];
      } else {
        KeepStep(s, f, i);
      }
      i := i + 1;
    }
    assert s[..i] == s;
  }

  /** The loop of `store` over the addressed messages `m`: each message gets its new
      flags and the result maps every key to the message's flags afterwards. A message
      reachable under two keys is updated twice, which changes nothing the second
      time. */
  method StoreFlags(m: map<nat, Message>, flags: seq<string>, mode: int) returns (result: map<nat, set<string>>)
    modifies m.Values
    ensures result.Keys == m.Keys
    ensures forall k :: k in m ==> result[k] == m[k].flags == Stored(old(m[k].flags), flags, mode)
  {
    ghost var f0 := map o | o in m.Values :: o.flags;
    var todo := m.Keys;
    result := map[];
    while todo != {}
      invariant todo <= m.Keys
      invariant forall k :: k in m ==> (k in result <==> k !in todo)
      invariant forall k :: k in result ==> k in m && result[k] == Stored(f0[m[k]], flags, mode)
      invariant forall k :: k in m && k !in todo ==> m[k].flags == Stored(f0[m[k]], flags, mode)
      invariant forall k :: k in m ==> m[k].flags == f0[m[k]] || m[k].flags == Stored(f0[m[k]], flags, mode)
    {
      var k :| k in todo;
      var msg := m[k];
      StoredIdempotent(f0[msg], flags, mode);
      if mode == 0 {
        msg.flags := SetOf(flags);
      } else {
        msg.UpdateFlags(flags, mode);
      }
      result := result[k := msg.flags];
      todo := todo - {k};
    }
  }

  /** The UID-mode comprehension of `_get_msgs`: position to message, for the messages
      whose UID is in `uids`. */
  function SelectByUid(msgs: seq<Message>, uids: set<nat>): (r: map<nat, Message>)
    ensures forall k: nat :: k in r <==> k < |msgs| && msgs[k].uid in uids
    ensures forall k :: k in r ==> r[k] == msgs[k]
  {
    map k: nat | k < |msgs| && msgs[k].uid in uids :: msgs[k]
  }

  /** No number of `numbers` exceeds `bound`. */
  predicate AtMost(numbers: set<nat>, bound: nat) {
    forall n :: n in numbers ==> n <= bound
  }

  /** The sequence-mode comprehension of `_get_msgs`: number n to `msgs[n - 1]`. */
  function SelectBySequence(msgs: seq<Message>, numbers: set<nat>): (r: Result<map<nat, Message>>)
    requires msgs != []
    ensures r.Ok? <==> AtMost(numbers, |msgs|)
    ensures r.Err? ==> r.error == IndexError
    ensures r.Ok? ==> r.value.Keys == numbers
    ensures r.Ok? ==> forall n :: n in r.value ==> r.value[n] == if n == 0 then msgs[|msgs| - 1] else msgs[n - 1]
  {
    if exists n :: n in numbers && Index(msgs, n as int - 1).Err? then Err(IndexError)
    else Ok(map n | n in numbers :: Index(msgs, n as int - 1).value)
  }

  /** Storing twice with the same flags and mode is storing once. */
  lemma StoredIdempotent(o: set<string>, flags: seq<string>, mode: int)
    ensures Stored(Stored(o, flags, mode), flags, mode) == Stored(o, flags, mode)
  {
  }

  /** A message of `s` does not survive among an earlier prefix of `s` when UIDs
      increase along `s`. */
  lemma SurvivorsExclude(s: seq<Message>, f: map<Message, set<string>>, i: nat)
    requires UidsIncrease(s) && Covers(s, f) && i < |s|
    ensures s[i] !in Survivors(s[..i], f)
  {
  }

  /** Extending the prefix by one message extends the survivors and the removed UIDs
      by that message's contribution. */
  lemma PrefixStep(s: seq<Message>, f: map<Message, set<string>>, i: nat)
    requires Covers(s, f) && i < |s|
    ensures Survivors(s[..i + 1], f) == Survivors(s[..i], f) + if DELETED in f[s[i]] then [] else [s[i]]
    ensures DeletedUids(s[..i + 1], f) == DeletedUids(s[..i], f) + if DELETED in f[s[i]] then [s[i].uid] else []
  {
    assert s[..i + 1][..i] == s[..i];
  }

  /** A round of the expunge loop that removes the i-th message: removing it by
      identity from the list built so far extends the survivors of the prefix. */
  lemma DropStep(s: seq<Message>, f: map<Message, set<string>>, i: nat)
    requires Covers(s, f) && i < |s| && DELETED in f[s[i]]
    requires s[i] !in Survivors(s[..i], f)
    ensures RemoveFirst(Survivors(s[..i], f) + s[i..], s[i]) == Survivors(s[..i + 1], f) + s[i + 1..]
  {
    var a, b := Survivors(s[..i], f), s[i + 1..];
    assert a + s[i..] == a + [s[i]] + b by {
      assert s[i..] == [s[i]] + b;
    }
    calc {
      RemoveFirst(a + s[i..], s[i]);
      RemoveFirst(a + [s[i]] + b, s[i]);
      { RemoveFirstAfter(a, s[i], b); }
      a + b;
      { PrefixStep(s, f, i); }
      Survivors(s[..i + 1], f) + b;
    }
  }

  /** A round of the expunge loop that keeps the i-th message leaves the list as is. */
  lemma KeepStep(s: seq<Message>, f: map<Message, set<string>>, i: nat)
    requires Covers(s, f) && i < |s| && DELETED !in f[s[i]]
    ensures Survivors(s[..i], f) + s[i..] == Survivors(s[..i + 1], f) + s[i + 1..]
  {
    PrefixStep(s, f, i);
    var a := Survivors(s[..i], f);
    assert s[i..] == [s[i]] + s[i + 1..];
    assert a + s[i..] == (a + [s[i]]) + s[i + 1..];
  }

  /** Survivors carry UIDs drawn from those of `s`. */
  lemma SurvivorsKeepUids(s: seq<Message>, f: map<Message, set<string>>, last: nat)
    requires Covers(s, f) && forall k :: 0 <= k < |s| ==> 1 <= s[k].uid <= last
    ensures forall k :: 0 <= k < |Survivors(s, f)| ==> 1 <= Survivors(s, f)[k].uid <= last
  {
    var r := Survivors(s, f);
    forall k | 0 <= k < |r| ensures 1 <= r[k].uid <= last {
      assert r[k] in s;
    }
  }

  /** Expunging keeps UIDs increasing. */
  lemma {:induction false} SurvivorsKeepOrder(s: seq<Message>, f: map<Message, set<string>>)
    requires UidsIncrease(s) && Covers(s, f)
    ensures UidsIncrease(Survivors(s, f))
  {
    if s != [] {
      var n := |s| - 1;
      assert UidsIncrease(s[..n]);
      SurvivorsKeepOrder(s[..n], f);
      forall m | m in Survivors(s[..n], f) ensures m.uid < s[n].uid {
        var k :| 0 <= k < n && s[..n][k] == m;
      }
    }
  }
}
