/** The direct-messages page: the conversation id two users share, the send
    handler, the display names and initials, and the contact sidebar. */
module Messages {
  import opened Options
  import opened Text
  import opened Seqs
  import opened Records

  // ---------------------------------------------------------------------------
  // Conversation id
  // ---------------------------------------------------------------------------

  /** A recipient id JavaScript treats as true: present and not empty. */
  predicate Chosen(recipient: Option<string>) {
    recipient.Some? && recipient.value != ""
  }

  /** `[a, b].sort()`: the two ids in the default string order. */
  function SortPair(a: string, b: string): (r: seq<string>)
    ensures |r| == 2 && multiset(r) == multiset{a, b}
    ensures LexLessEq(r[0], r[1])
  {
    LexTotal(a, b);
    if LexLessEq(a, b) then [a, b] else [b, a]
  }

  /** `parts.join(sep)`. */
  function Join(parts: seq<string>, sep: string): string {
    if parts == [] then ""
    else if |parts| == 1 then parts[0]
    else parts[0] + sep + Join(parts[1..], sep)
  }

  /** The id of the conversation between two users: both uids in sorted
      order, joined with "_". */
  function PairId(a: string, b: string): (r: string)
    ensures LexLessEq(a, b) ==> r == a + "_" + b
    ensures !LexLessEq(a, b) ==> r == b + "_" + a
  {
    var sorted := SortPair(a, b);
    assert Join(sorted[1..], "_") == sorted[1];
    Join(sorted, "_")
  }

  /** The id does not depend on which of the two users computes it. */
  lemma PairIdSymmetric(a: string, b: string)
    ensures PairId(a, b) == PairId(b, a)
  {
    LexTotal(a, b);
    if LexLessEq(a, b) && LexLessEq(b, a) {
      LexAntisymmetric(a, b);
    }
  }

  /** The id lists the smaller uid first. */
  lemma PairIdOrdered(a: string, b: string)
    ensures exists lo, hi :: multiset{lo, hi} == multiset{a, b} && LexLessEq(lo, hi) && PairId(a, b) == lo + "_" + hi
  {
    LexTotal(a, b);
    if LexLessEq(a, b) {
      assert multiset{a, b} == multiset{a, b} && PairId(a, b) == a + "_" + b;
    } else {
      assert multiset{b, a} == multiset{a, b} && PairId(a, b) == b + "_" + a;
    }
  }

  /** Splitting at the first "_" recovers both halves. */
  lemma SplitAtSeparator(x: string, y: string, u: string, v: string)
    requires '_' !in x && '_' !in u
    requires x + "_" + y == u + "_" + v
    ensures x == u && y == v
  {
    var s := x + "_" + y;
    assert forall i | 0 <= i < |x| :: s[i] == x[i];
    assert forall i | 0 <= i < |u| :: s[i] == u[i];
    assert s[|x|] == '_' && s[|u|] == '_';
    assert |x| == |u|;
    assert x == s[..|x|] && u == (u + "_" + v)[..|u|];
    assert y == s[|x| + 1..] && v == (u + "_" + v)[|u| + 1..];
  }

  /** For uids without "_", different pairs of users never share a
      conversation id. */
  lemma PairIdInjective(a: string, b: string, c: string, d: string)
    requires '_' !in a && '_' !in b && '_' !in c && '_' !in d
    requires PairId(a, b) == PairId(c, d)
    ensures multiset{a, b} == multiset{c, d}
  {
    if LexLessEq(a, b) {
      if LexLessEq(c, d) { SplitAtSeparator(a, b, c, d); } else { SplitAtSeparator(a, b, d, c); }
    } else {
      if LexLessEq(c, d) { SplitAtSeparator(b, a, c, d); } else { SplitAtSeparator(b, a, d, c); }
    }
  }

  /** `conversationId`: defined once a recipient is chosen and a user is
      signed in. */
  function ConversationId(user: Option<string>, recipient: Option<string>): (r: Option<string>)
    ensures r.Some? <==> user.Some? && Chosen(recipient)
    ensures r.Some? ==> r.value == PairId(user.value, recipient.value)
  {
    if Chosen(recipient) && user.Some? then Some(PairId(user.value, recipient.value)) else None
  }

  /** Two signed-in users looking at each other compute the same id. */
  lemma ConversationIdSymmetric(a: string, b: string)
    requires a != "" && b != ""
    ensures ConversationId(Some(a), Some(b)) == ConversationId(Some(b), Some(a))
  {
    PairIdSymmetric(a, b);
  }

  // ---------------------------------------------------------------------------
  // Sending
  // ---------------------------------------------------------------------------

  /** A message and the conversation it is added to. */
  datatype Delivery = Delivery(conversation: string, message: Message)

  /** The outcome of the send handler: the delivery, if any, and the text left
      in the message box. */
  datatype SendOutcome = SendOutcome(sent: Option<Delivery>, input: string)

  /** `handleSendMessage`. The message id and the timestamp come from the
      runtime and are parameters here. */
  function SendMessage(s: Session, recipient: Option<string>,
                       text: string, id: string, now: string): (r: SendOutcome)
    ensures r.sent.None? <==> AllSpace(text) || s.user.None? || !Chosen(recipient) || !s.connected
    ensures r.sent.None? ==> r.input == text
    ensures r.sent.Some? ==>
      var m := r.sent.value.message;
      && r.input == ""
      && m.senderId == s.user.value
      && m.receiverId == recipient.value
      && m.message != "" && IsTrimmed(m.message) && Padded(text, m.message)
      && m.id == id && m.timestamp == now
      && r.sent.value.conversation == PairId(s.user.value, recipient.value)
  {
    TrimEmptyIff(text);
    var conversation := ConversationId(s.user, recipient);
    if Trim(text) == "" || s.user.None? || !Chosen(recipient) || conversation.None? || !s.connected then
      SendOutcome(None, text)
    else
      var m := Message(id, s.user.value, recipient.value, Trim(text), now);
      SendOutcome(Some(Delivery(conversation.value, m)), "")
  }

  /** An answer goes to the conversation the message it answers went to. */
  lemma AnswerSharesConversation(connected: bool, a: string, b: string,
                                 t1: string, id1: string, now1: string,
                                 t2: string, id2: string, now2: string)
    requires connected && a != "" && b != ""
    requires !AllSpace(t1) && !AllSpace(t2)
    ensures SendMessage(Session(connected, Some(a)), Some(b), t1, id1, now1).sent.Some?
    ensures SendMessage(Session(connected, Some(b)), Some(a), t2, id2, now2).sent.Some?
    ensures SendMessage(Session(connected, Some(b)), Some(a), t2, id2, now2).sent.value.conversation
         == SendMessage(Session(connected, Some(a)), Some(b), t1, id1, now1).sent.value.conversation
  {
    PairIdSymmetric(a, b);
  }

  // ---------------------------------------------------------------------------
  // Names
  // ---------------------------------------------------------------------------

  /** The name in the chat header (`recipientName`). */
  function RecipientName(recipient: Option<UserDoc>): (r: string)
    ensures r != "" && IsTrimmed(r)
    ensures recipient.None? ==> r == "Select a Contact"
    ensures recipient.Some? ==>
      var full := OrElse(recipient.value.firstName, "") + " " + OrElse(recipient.value.lastName, "");
      && (AllSpace(full) ==> r == "User")
      && (!AllSpace(full) ==> Padded(full, r))
  {
    if recipient.None? then "Select a Contact"
    else
      var full := OrElse(recipient.value.firstName, "") + " " + OrElse(recipient.value.lastName, "");
      TrimEmptyIff(full);
      var trimmed := Trim(full);
      if trimmed != "" then trimmed else "User"
  }

  /** A name JavaScript treats as false: missing or empty. */
  predicate Blank(name: Option<string>) {
    name.None? || name.value == ""
  }

  /** `name?.[0] || ''`: the first character, or nothing. */
  function Initial(name: Option<string>): (r: string)
    ensures Blank(name) ==> r == ""
    ensures !Blank(name) ==> r == [name.value[0]]
  {
    if Blank(name) then "" else [name.value[0]]
  }

  /** `getInitials`: the upper-cased first letters of the names that are
      present, or "?" when neither is. */
  function Initials(first: Option<string>, last: Option<string>): (r: string)
    ensures Blank(first) && Blank(last) ==> r == "?"
    ensures !(Blank(first) && Blank(last)) ==>
      |r| == (if Blank(first) then 0 else 1) + (if Blank(last) then 0 else 1)
    ensures !Blank(first) ==> r[0] == UpperChar(first.value[0])
    ensures !Blank(last) ==> r[|r| - 1] == UpperChar(last.value[0])
    ensures forall i | 0 <= i < |r| :: !IsLowerAscii(r[i])
  {
    var letters := Upper(Initial(first) + Initial(last));
    if letters != "" then letters else "?"
  }

  // ---------------------------------------------------------------------------
  // Sidebar
  // ---------------------------------------------------------------------------

  /** The people listed in the sidebar: the fetched mentors and alumni except
      the signed-in user; nothing while the list loads. With nobody signed in
      the comparison is against `undefined` and excludes no one. */
  function Contacts(loading: bool, list: Option<seq<UserDoc>>, user: Option<string>): (r: seq<UserDoc>)
    ensures loading || list.None? ==> r == []
    ensures list.Some? ==> IsSubseq(r, list.value)
    ensures user.Some? ==> forall p | p in r :: p.id != user.value
    ensures !loading && list.Some? ==>
      forall p | p in list.value && (user.None? || p.id != user.value) :: p in r
    ensures !loading && list.Some? ==> forall p | p in list.value ::
      multiset(r)[p] == if user.None? || p.id != user.value then multiset(list.value)[p] else 0
  {
    if loading || list.None? then []
    else Filter((p: UserDoc) => user.None? || p.id != user.value, list.value)
  }

  /** The "No other members found." notice as written: it tests the length of
      the fetched list, not of the list the sidebar shows. */
  function NoOtherMembersNotice(loading: bool, list: Option<seq<UserDoc>>): (r: bool)
    ensures r ==> loading == false
    ensures !loading && list.None? ==> r
    ensures !loading && list.Some? ==> (r <==> |list.value| <= 1)
  {
    !loading && (list.None? || |list.value| <= 1)
  }

  /** A signed-in student (not in the mentor/alumni list) facing a single
      mentor sees the mentor listed and, below it, the notice that there are
      no other members. */
  lemma NoticeBesideContact(student: string, mentor: UserDoc)
    requires mentor.id != student
    ensures NoOtherMembersNotice(false, Some([mentor]))
    ensures Contacts(false, Some([mentor]), Some(student)) == [mentor]
  {
  }

  /** The notice as evidently intended: shown once loading is over and the
      list has nobody but the signed-in user. */
  function NoContactsNotice(loading: bool, list: Option<seq<UserDoc>>, user: Option<string>): (r: bool)
    ensures r <==> !loading && Contacts(loading, list, user) == []
  {
    var r := !loading && (list.None? || forall p | p in list.value :: user.Some? && p.id == user.value);
    assert !loading && list.Some? && Contacts(loading, list, user) == [] ==> r by {
      if !loading && list.Some? && Contacts(loading, list, user) == [] {
        forall p | p in list.value
          ensures user.Some? && p.id == user.value
        {
          assert (user.None? || p.id != user.value) ==> p in Contacts(loading, list, user);
        }
      }
    }
    assert r && list.Some? ==> Contacts(loading, list, user) == [] by {
      if r && list.Some? {
        FilterNone((p: UserDoc) => user.None? || p.id != user.value, list.value);
      }
    }
    r
  }

  /** The ids of a list of people. */
  function Ids(list: seq<UserDoc>): (r: seq<string>)
    ensures |r| == |list| && forall i | 0 <= i < |list| :: r[i] == list[i].id
  {
    seq(|list|, i requires 0 <= i < |list| => list[i].id)
  }

  /** When the signed-in user is one of the fetched people (a mentor or alumnus
      viewing the page) and ids are distinct, the notice as written agrees with
      the intended one. */
  lemma NoticeAgreesForListedUser(loading: bool, list: seq<UserDoc>, user: string)
    requires NoDuplicates(Ids(list))
    requires user in Ids(list)
    ensures NoOtherMembersNotice(loading, Some(list)) == NoContactsNotice(loading, Some(list), Some(user))
  {
    var k :| 0 <= k < |list| && list[k].id == user;
    if |list| <= 1 {
      assert list == [list[k]];
    } else {
      var other := if k == 0 then 1 else 0;
      assert Ids(list)[k] != Ids(list)[other];
      assert list[other] in list && list[other].id != user;
    }
  }
}
