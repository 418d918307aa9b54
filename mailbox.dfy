/** The scan of the inbox in `read_all_messages`: messages are visited newest first,
    ignored uids are skipped, digests from arXiv are kept and every other message is added
    to the ignore list. The IMAP search and fetch are replaced by the listing they return. */
module Mailbox {
  import opened Wrappers
  import opened PyStr
  import opened PyDict
  import opened IgnoreList

  /** One fetched message: its uid, its From and Subject headers (absent headers are None)
      and its body. */
  datatype Message = Message(uid: nat, sender: Option<string>, subject: Option<string>, payload: string)

  const ArxivSender: string := "no-reply@arxiv.org"

  /** `email_from.lower().startswith('no-reply@arxiv.org')`. */
  predicate IsArxivSender(sender: string)
    ensures IsArxivSender(sender) ==> |sender| >= |ArxivSender|
  {
    StartsWith(Lower(sender), ArxivSender)
  }

  /** The sender test looks only at the first 18 characters, ignoring ASCII case. */
  lemma ArxivSenderPrefix(sender: string)
    ensures IsArxivSender(sender) <==> |sender| >= |ArxivSender| && Lower(sender[..|ArxivSender|]) == ArxivSender
  {
    StartsWithPrefix(Lower(sender), ArxivSender);
    if |sender| >= |ArxivSender| {
      assert Lower(sender)[..|ArxivSender|] == Lower(sender[..|ArxivSender|]);
    }
  }

  /** Whatever follows the address (a display name, a bracket) does not matter. */
  lemma ArxivSenderExtends(sender: string, rest: string)
    requires IsArxivSender(sender)
    ensures IsArxivSender(sender + rest)
  {
    ArxivSenderPrefix(sender);
    ArxivSenderPrefix(sender + rest);
    assert (sender + rest)[..|ArxivSender|] == sender[..|ArxivSender|];
  }

  /** Lower-casing a character twice is lower-casing it once. */
  lemma LowerCharIdempotent(c: char)
    ensures LowerChar(LowerChar(c)) == LowerChar(c)
  {
  }

  /** Upper-case letters in the header do not change the decision. */
  lemma ArxivSenderIgnoresCase(sender: string)
    ensures IsArxivSender(Lower(sender)) <==> IsArxivSender(sender)
  {
    forall i | 0 <= i < |sender| ensures Lower(Lower(sender))[i] == Lower(sender)[i] {
      LowerCharIdempotent(sender[i]);
    }
    assert Lower(Lower(sender)) == Lower(sender);
  }

  /** The reasons the scan ends without a result: the ignore file holds a line that is not
      an integer (ValueError), or a message has no From header (AttributeError on None). */
  datatype ReadError = MalformedIgnoreFile | MissingSender(uid: nat)

  /** The state of the scan: the two dictionaries filled so far, the uids added to the
      ignore file, and the uid of the message that stopped the scan, if any. */
  datatype Scan = Scan(texts: Dict<string>, subjects: Dict<Option<string>>, rejected: seq<nat>, stopped: Option<nat>)

  const Start: Scan := Scan(Empty(), Empty(), [], None)

  /** The decision for one message (lines 85-110). */
  function Step(ignored: set<int>, st: Scan, m: Message): (r: Scan)
    ensures st.stopped.Some? || m.uid as int in ignored ==> r == st
    ensures st.stopped.None? && m.uid as int !in ignored && m.sender.None? ==> r == st.(stopped := Some(m.uid))
    ensures st.stopped.None? && Kept(ignored, m) ==>
      r.stopped.None? && r.rejected == st.rejected &&
      r.texts.entries == st.texts.entries[m.uid := m.payload] &&
      r.subjects.entries == st.subjects.entries[m.uid := m.subject]
    ensures st.stopped.None? && Refused(ignored, m) ==> r == st.(rejected := st.rejected + [m.uid])
  {
    if st.stopped.Some? || m.uid as int in ignored then st
    else if m.sender.None? then st.(stopped := Some(m.uid))
    else if IsArxivSender(m.sender.value) then
      st.(texts := Insert(st.texts, m.uid, m.payload), subjects := Insert(st.subjects, m.uid, m.subject))
    else st.(rejected := st.rejected + [m.uid])
  }

  /** The scan of listing[i..], newest (last) message first. */
  function ScanFrom(ignored: set<int>, listing: seq<Message>, i: nat): (r: Scan)
    requires i <= |listing|
    ensures |r.rejected| + |r.texts.keys| <= |listing| - i
    decreases |listing| - i
  {
    if i == |listing| then Start else Step(ignored, ScanFrom(ignored, listing, i + 1), listing[i])
  }

  /** `read_all_messages`, given the listing the mailbox search and fetches return. The
      ignore list is read once, before the loop; every rejected uid is appended to it as
      it is found, so the appends made before a failure stay in the file. */
  method ReadAllMessages(listing: seq<Message>, store: IgnoreFile)
    returns (r: Result<(Dict<string>, Dict<Option<string>>), ReadError>)
    modifies store
    ensures old(store.Ignored()).None? ==> r == Err(MalformedIgnoreFile) && store.contents == old(store.contents)
    ensures old(store.Ignored()).Some? ==>
      var sc := ScanFrom(old(store.Ignored()).value, listing, 0);
      store.contents == old(store.contents) + Records(sc.rejected) &&
      store.Ignored() == Some(old(store.Ignored()).value + UidSet(sc.rejected)) &&
      r == (if sc.stopped.Some? then Err(MissingSender(sc.stopped.value)) else Ok((sc.texts, sc.subjects)))
  {
    var ignored := store.Ignored();
    if ignored.None? {
      return Err(MalformedIgnoreFile);
    }
    ghost var start := store.contents;
    var texts: Dict<string> := Empty();
    var subjects: Dict<Option<string>> := Empty();
    ghost var rejected: seq<nat> := [];
    var i := |listing|;
    while i > 0
      invariant 0 <= i <= |listing|
      invariant ScanFrom(ignored.value, listing, i) == Scan(texts, subjects, rejected, None)
      invariant store.contents == start + Records(rejected)
    {
      i := i - 1;
      var m := listing[i];
      if m.uid as int in ignored.value {
        ScanSkips(ignored.value, listing, i, Scan(texts, subjects, rejected, None));
        continue;
      }
      if m.sender.None? {
        StoppedStays(ignored.value, listing, i);
        AppendRecords(start, rejected);
        return Err(MissingSender(m.uid));
      }
      if IsArxivSender(m.sender.value) {
        ScanKeeps(ignored.value, listing, i, Scan(texts, subjects, rejected, None));
        texts := Insert(texts, m.uid, m.payload);
        subjects := Insert(subjects, m.uid, m.subject);
      } else {
        ScanRefuses(ignored.value, listing, i, Scan(texts, subjects, rejected, None));
        RecordsSnoc(start, rejected, m.uid);
        store.Append(m.uid);
        rejected := rejected + [m.uid];
      }
    }
    AppendRecords(start, rejected);
    return Ok((texts, subjects));
  }

  /** One step of the scan for an ignored message, a kept one and a refused one. */
  lemma ScanSkips(ignored: set<int>, listing: seq<Message>, i: nat, st: Scan)
    requires i < |listing| && ScanFrom(ignored, listing, i + 1) == st && listing[i].uid as int in ignored
    ensures ScanFrom(ignored, listing, i) == st
  {
  }

  lemma ScanKeeps(ignored: set<int>, listing: seq<Message>, i: nat, st: Scan)
    requires i < |listing| && ScanFrom(ignored, listing, i + 1) == st && st.stopped.None?
    requires Kept(ignored, listing[i])
    ensures ScanFrom(ignored, listing, i) ==
      st.(texts := Insert(st.texts, listing[i].uid, listing[i].payload),
          subjects := Insert(st.subjects, listing[i].uid, listing[i].subject))
  {
  }

  lemma ScanRefuses(ignored: set<int>, listing: seq<Message>, i: nat, st: Scan)
    requires i < |listing| && ScanFrom(ignored, listing, i + 1) == st && st.stopped.None?
    requires Refused(ignored, listing[i])
    ensures ScanFrom(ignored, listing, i) == st.(rejected := st.rejected + [listing[i].uid])
  {
  }

  /** Once a message without a sender stops the scan, older messages change nothing. */
  lemma {:induction false} StoppedStays(ignored: set<int>, listing: seq<Message>, i: nat)
    requires i <= |listing| && ScanFrom(ignored, listing, i).stopped.Some?
    ensures ScanFrom(ignored, listing, 0) == ScanFrom(ignored, listing, i)
    decreases i
  {
    if i > 0 {
      assert ScanFrom(ignored, listing, i - 1) == ScanFrom(ignored, listing, i);
      StoppedStays(ignored, listing, i - 1);
    }
  }

  /** A message the scan keeps: not ignored, and sent by arXiv. */
  predicate Kept(ignored: set<int>, m: Message) {
    m.uid as int !in ignored && m.sender.Some? && IsArxivSender(m.sender.value)
  }

  /** A message the scan adds to the ignore list: not ignored, and sent by someone else. */
  predicate Refused(ignored: set<int>, m: Message) {
    m.uid as int !in ignored && m.sender.Some? && !IsArxivSender(m.sender.value)
  }

  /** The uids of the kept messages, in listing order. */
  function KeptUids(ignored: set<int>, ms: seq<Message>): seq<nat> {
    if ms == [] then [] else (if Kept(ignored, ms[0]) then [ms[0].uid] else []) + KeptUids(ignored, ms[1..])
  }

  /** The uids of the refused messages, in listing order. */
  function RefusedUids(ignored: set<int>, ms: seq<Message>): seq<nat> {
    if ms == [] then [] else (if Refused(ignored, ms[0]) then [ms[0].uid] else []) + RefusedUids(ignored, ms[1..])
  }

  /** The elements of s, last first. */
  function Reverse<T>(s: seq<T>): seq<T> {
    seq(|s|, i requires 0 <= i < |s| => s[|s| - 1 - i])
  }

  /** Reversing twice gives the sequence back. */
  lemma ReverseReverse<T>(s: seq<T>)
    ensures Reverse(Reverse(s)) == s
  {
  }

  /** Reversing puts the first element last. */
  lemma ReverseCons<T>(x: T, s: seq<T>)
    ensures Reverse([x] + s) == Reverse(s) + [x]
  {
  }

  lemma ReverseConsOpt<T>(xs: seq<T>, s: seq<T>)
    requires |xs| <= 1
    ensures Reverse(xs + s) == Reverse(s) + xs
  {
    if xs == [] {
      assert xs + s == s;
    } else {
      ReverseCons(xs[0], s);
      assert xs == [xs[0]];
    }
  }

  /** IMAP uids name one message each. */
  predicate DistinctUids(listing: seq<Message>) {
    forall i, j :: 0 <= i < j < |listing| ==> listing[i].uid != listing[j].uid
  }

  /** Slicing facts about the listing, kept apart from the `ScanFrom` terms of `ScanNewestFirst`. */
  lemma Unfold(listing: seq<Message>, i: nat)
    requires i < |listing|
    ensures listing[i..] != [] && listing[i..][0] == listing[i] && listing[i..][1..] == listing[i + 1..]
  {
  }

  lemma {:induction false} KeptUidsFrom(ignored: set<int>, ms: seq<Message>, u: nat)
    requires u in KeptUids(ignored, ms)
    ensures exists j :: 0 <= j < |ms| && ms[j].uid == u
  {
    if Kept(ignored, ms[0]) && u == ms[0].uid {
    } else {
      assert u in KeptUids(ignored, ms[1..]);
      KeptUidsFrom(ignored, ms[1..], u);
      var j :| 0 <= j < |ms[1..]| && ms[1..][j].uid == u;
      assert ms[j + 1].uid == u;
    }
  }

  /** Every state of the scan holds two well-formed dictionaries with the same keys. */
  lemma {:induction false} ScanValid(ignored: set<int>, listing: seq<Message>, i: nat)
    requires i <= |listing|
    ensures var sc := ScanFrom(ignored, listing, i);
      Valid(sc.texts) && Valid(sc.subjects) && sc.texts.keys == sc.subjects.keys
    decreases |listing| - i
  {
    if i < |listing| {
      ScanValid(ignored, listing, i + 1);
    }
  }

  /** Each of uids is the uid of a message of listing[i..] that satisfies the filter. */
  ghost predicate FromMessages(ignored: set<int>, listing: seq<Message>, i: nat, uids: seq<nat>, kept: bool) {
    forall k :: 0 <= k < |uids| ==>
      exists j :: i <= j < |listing| && listing[j].uid == uids[k] && Passes(ignored, listing[j], kept)
  }

  predicate Passes(ignored: set<int>, m: Message, kept: bool) {
    if kept then Kept(ignored, m) else Refused(ignored, m)
  }

  lemma FromMessagesWiden(ignored: set<int>, listing: seq<Message>, i: nat, uids: seq<nat>, kept: bool)
    requires i < |listing| && FromMessages(ignored, listing, i + 1, uids, kept)
    ensures FromMessages(ignored, listing, i, uids, kept)
  {
    forall k | 0 <= k < |uids|
      ensures exists j :: i <= j < |listing| && listing[j].uid == uids[k] && Passes(ignored, listing[j], kept)
    {
      var j :| i + 1 <= j < |listing| && listing[j].uid == uids[k] && Passes(ignored, listing[j], kept);
      assert i <= j < |listing| && listing[j].uid == uids[k] && Passes(ignored, listing[j], kept);
    }
    assert forall k :: 0 <= k < |uids| ==>
      exists j :: i <= j < |listing| && listing[j].uid == uids[k] && Passes(ignored, listing[j], kept);
  }

  lemma FromMessagesSnoc(ignored: set<int>, listing: seq<Message>, i: nat, uids: seq<nat>, kept: bool)
    requires i < |listing| && FromMessages(ignored, listing, i + 1, uids, kept)
    requires Passes(ignored, listing[i], kept)
    ensures FromMessages(ignored, listing, i, uids + [listing[i].uid], kept)
  {
    var ext := uids + [listing[i].uid];
    forall k | 0 <= k < |ext|
      ensures exists j :: i <= j < |listing| && listing[j].uid == ext[k] && Passes(ignored, listing[j], kept)
    {
      if k == |uids| {
        assert listing[i].uid == ext[k];
      } else {
        assert ext[k] == uids[k];
        var j :| i + 1 <= j < |listing| && listing[j].uid == uids[k] && Passes(ignored, listing[j], kept);
      }
    }
  }

  /** Each key of the dictionaries is the uid of a kept message. */
  lemma {:induction false} ScanKeptOrigin(ignored: set<int>, listing: seq<Message>, i: nat)
    requires i <= |listing|
    ensures FromMessages(ignored, listing, i, ScanFrom(ignored, listing, i).texts.keys, true)
    decreases |listing| - i
  {
    if i < |listing| {
      ScanKeptOrigin(ignored, listing, i + 1);
      ScanValid(ignored, listing, i + 1);
      var prev := ScanFrom(ignored, listing, i + 1);
      var m := listing[i];
      if prev.stopped.None? && Kept(ignored, m) && m.uid !in prev.texts.entries {
        FromMessagesSnoc(ignored, listing, i, prev.texts.keys, true);
      } else {
        FromMessagesWiden(ignored, listing, i, prev.texts.keys, true);
      }
    }
  }

  /** Each uid added to the ignore list is the uid of a refused message. */
  lemma {:induction false} ScanRefusedOrigin(ignored: set<int>, listing: seq<Message>, i: nat)
    requires i <= |listing|
    ensures FromMessages(ignored, listing, i, ScanFrom(ignored, listing, i).rejected, false)
    decreases |listing| - i
  {
    if i < |listing| {
      ScanRefusedOrigin(ignored, listing, i + 1);
      var prev := ScanFrom(ignored, listing, i + 1);
      if prev.stopped.None? && Refused(ignored, listing[i]) {
        FromMessagesSnoc(ignored, listing, i, prev.rejected, false);
      } else {
        FromMessagesWiden(ignored, listing, i, prev.rejected, false);
      }
    }
  }

  /** A kept message whose uid the dictionaries do not hold yet. */
  lemma {:induction false} FreshUid(ignored: set<int>, listing: seq<Message>, i: nat)
    requires i < |listing| && DistinctUids(listing)
    ensures listing[i].uid !in ScanFrom(ignored, listing, i + 1).texts.entries
    ensures listing[i].uid !in ScanFrom(ignored, listing, i + 1).subjects.entries
  {
    var prev := ScanFrom(ignored, listing, i + 1);
    ScanValid(ignored, listing, i + 1);
    ScanKeptOrigin(ignored, listing, i + 1);
    forall k | 0 <= k < |prev.texts.keys| ensures prev.texts.keys[k] != listing[i].uid {
      var j :| i + 1 <= j < |listing| && listing[j].uid == prev.texts.keys[k] && Kept(ignored, listing[j]);
      assert listing[i].uid != listing[j].uid;
    }
    assert listing[i].uid !in prev.texts.keys;
  }

  /** Without a stop, and with uids naming one message each, the dictionaries list the kept
      messages newest first, and the uids added to the ignore list are the refused
      messages, newest first. */
  lemma {:induction false} ScanNewestFirst(ignored: set<int>, listing: seq<Message>, i: nat)
    requires i <= |listing| && DistinctUids(listing)
    requires ScanFrom(ignored, listing, i).stopped.None?
    ensures var sc := ScanFrom(ignored, listing, i);
      sc.texts.keys == Reverse(KeptUids(ignored, listing[i..])) &&
      sc.subjects.keys == sc.texts.keys &&
      sc.rejected == Reverse(RefusedUids(ignored, listing[i..]))
    decreases |listing| - i
  {
    if i == |listing| {
      assert listing[i..] == [];
    } else {
      var m := listing[i];
      ScanNewestFirst(ignored, listing, i + 1);
      ScanValid(ignored, listing, i + 1);
      FreshUid(ignored, listing, i);
      Unfold(listing, i);
      ReverseConsOpt(if Kept(ignored, m) then [m.uid] else [], KeptUids(ignored, listing[i + 1..]));
      ReverseConsOpt(if Refused(ignored, m) then [m.uid] else [], RefusedUids(ignored, listing[i + 1..]));
    }
  }

  /** Without a stop, and with uids naming one message each, every kept message's body and
      subject are recorded under its uid. */
  lemma {:induction false} ScanRecordsKept(ignored: set<int>, listing: seq<Message>, i: nat)
    requires i <= |listing| && DistinctUids(listing)
    requires ScanFrom(ignored, listing, i).stopped.None?
    ensures var sc := ScanFrom(ignored, listing, i);
      forall j :: i <= j < |listing| && Kept(ignored, listing[j]) ==>
        listing[j].uid in sc.texts.entries && sc.texts.entries[listing[j].uid] == listing[j].payload &&
        listing[j].uid in sc.subjects.entries && sc.subjects.entries[listing[j].uid] == listing[j].subject
    decreases |listing| - i
  {
    if i < |listing| {
      ScanRecordsKept(ignored, listing, i + 1);
      var prev := ScanFrom(ignored, listing, i + 1);
      var sc := ScanFrom(ignored, listing, i);
      forall j | i < j < |listing| ensures listing[j].uid != listing[i].uid {
      }
      if Kept(ignored, listing[i]) {
        assert sc.texts.entries == prev.texts.entries[listing[i].uid := listing[i].payload];
        assert sc.subjects.entries == prev.subjects.entries[listing[i].uid := listing[i].subject];
      } else {
        assert sc.texts == prev.texts && sc.subjects == prev.subjects;
      }
    }
  }

  /** listing[j] is the newest message that is not ignored and has no From header. */
  predicate StopsAt(ignored: set<int>, listing: seq<Message>, j: nat)
    requires j < |listing|
  {
    listing[j].uid as int !in ignored && listing[j].sender.None? &&
    forall k :: j < k < |listing| ==> listing[k].uid as int in ignored || listing[k].sender.Some?
  }

  /** The scan stops exactly when some message that is not ignored has no From header, and
      then at the newest such message. */
  lemma {:induction false} ScanStops(ignored: set<int>, listing: seq<Message>, i: nat)
    requires i <= |listing|
    ensures var sc := ScanFrom(ignored, listing, i);
      (sc.stopped.None? <==> forall j :: i <= j < |listing| ==> listing[j].uid as int in ignored || listing[j].sender.Some?) &&
      (sc.stopped.Some? ==>
        exists j :: i <= j < |listing| && listing[j].uid == sc.stopped.value && StopsAt(ignored, listing, j))
    decreases |listing| - i
  {
    if i < |listing| {
      ScanStops(ignored, listing, i + 1);
    }
  }
}
