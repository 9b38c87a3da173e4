/** The guidance board: searching requests, liking, posting a question,
    replying, and opening a request by id. */
module Guidance {
  import opened Options
  import opened Text
  import opened Seqs
  import opened Records

  // ---------------------------------------------------------------------------
  // Search
  // ---------------------------------------------------------------------------

  /** The lower-cased term occurs in the lower-cased title or description. */
  predicate RequestMatches(req: GuidanceRequest, term: string) {
    || Contains(Lower(req.title), Lower(term))
    || Contains(Lower(req.description), Lower(term))
  }

  /** `filteredRequests`: the matching requests in list order; undefined while
      the list is. */
  function FilterRequests(requests: Option<seq<GuidanceRequest>>, term: string): (r: Option<seq<GuidanceRequest>>)
    ensures r.Some? <==> requests.Some?
    ensures r.Some? ==> IsSubseq(r.value, requests.value)
    ensures r.Some? ==> forall q | q in r.value :: RequestMatches(q, term)
    ensures r.Some? ==> forall q | q in requests.value && RequestMatches(q, term) :: q in r.value
    ensures r.Some? ==> forall q | q in requests.value ::
      multiset(r.value)[q] == if RequestMatches(q, term) then multiset(requests.value)[q] else 0
  {
    if requests.None? then None
    else Some(Filter((q: GuidanceRequest) => RequestMatches(q, term), requests.value))
  }

  /** An empty search keeps every request. */
  lemma EmptySearchKeepsAllRequests(requests: seq<GuidanceRequest>)
    ensures FilterRequests(Some(requests), "") == Some(requests)
  {
    forall q | q in requests
      ensures RequestMatches(q, "")
    {
      ContainsEmpty(Lower(q.title));
    }
    FilterAll((q: GuidanceRequest) => RequestMatches(q, ""), requests);
  }

  // ---------------------------------------------------------------------------
  // Likes
  // ---------------------------------------------------------------------------

  /** The like count shown and incremented: `likes || 0`. */
  function Likes(req: GuidanceRequest): int {
    req.likes.GetOr(0)
  }

  /** `handleLike`: the request as it reads after the write of
      `{ likes: (currentLikes || 0) + 1 }`; no write without a database
      handle. */
  function Like(connected: bool, req: GuidanceRequest): (r: Option<GuidanceRequest>)
    ensures r.Some? <==> connected
    ensures r.Some? ==> r.value.likes.Some? && Likes(r.value) == Likes(req) + 1
    ensures r.Some? ==> r.value.(likes := req.likes) == req
  {
    if !connected then None
    else Some(req.(likes := Some(Likes(req) + 1)))
  }

  /** `n` likes in a row add `n` to the count. */
  function LikeTimes(req: GuidanceRequest, n: nat): GuidanceRequest {
    if n == 0 then req else Like(true, LikeTimes(req, n - 1)).value
  }

  lemma {:induction false} LikesAccumulate(req: GuidanceRequest, n: nat)
    ensures Likes(LikeTimes(req, n)) == Likes(req) + n
    ensures LikeTimes(req, n).(likes := req.likes) == req
  {
    if n > 0 {
      LikesAccumulate(req, n - 1);
    }
  }

  // ---------------------------------------------------------------------------
  // Posting
  // ---------------------------------------------------------------------------

  /** `${userData?.firstName || fallback} ${userData?.lastName || ''}`: how a
      question or a reply is signed. */
  function SignedName(profile: Option<UserDoc>, fallback: string): string {
    OrElse(FirstNameOf(profile), fallback) + " " + OrElse(LastNameOf(profile), "")
  }

  /** The signature starts with the first name when there is one and with the
      fallback otherwise. */
  lemma SignedNameStart(profile: Option<UserDoc>, fallback: string)
    ensures var name := SignedName(profile, fallback);
      && (FirstNameOf(profile).Some? && FirstNameOf(profile).value != "" ==>
            name[..|FirstNameOf(profile).value|] == FirstNameOf(profile).value)
      && (FirstNameOf(profile).None? || FirstNameOf(profile).value == "" ==>
            name[..|fallback|] == fallback)
  {
  }

  /** `handlePostQuestion`. The id and the posting date come from the runtime;
      title and description are the form fields as entered. */
  function PostQuestion(s: Session, profile: Option<UserDoc>, title: string, description: string,
                        id: string, now: string): (r: Option<GuidanceRequest>)
    ensures r.Some? <==> s.user.Some? && s.connected
    ensures r.Some? ==>
      && r.value.id == id
      && r.value.studentId == s.user.value
      && r.value.title == title && r.value.description == description
      && r.value.category == "General Advice"
      && r.value.likes == Some(0)
      && r.value.datePosted == now
    ensures r.Some? ==> r.value.studentName == SignedName(profile, "Anonymous")
  {
    if s.user.None? || !s.connected then None
    else
      var name := SignedName(profile, "Anonymous");
      Some(GuidanceRequest(id, s.user.value, name, title, description, "General Advice", now, Some(0)))
  }

  /** A question posted without a loaded profile is signed "Anonymous ". */
  lemma AnonymousQuestion(s: Session, title: string, description: string, id: string, now: string)
    requires s.user.Some? && s.connected
    ensures PostQuestion(s, None, title, description, id, now).value.studentName == "Anonymous "
  {
  }

  /** A new question shows no likes, one like later it shows one, and the
      empty search lists it. */
  lemma NewQuestionLifecycle(s: Session, profile: Option<UserDoc>, title: string, description: string,
                             id: string, now: string)
    requires s.user.Some? && s.connected
    ensures var q := PostQuestion(s, profile, title, description, id, now).value;
      && Likes(q) == 0
      && Likes(Like(true, q).value) == 1
      && FilterRequests(Some([q]), "") == Some([q])
  {
    EmptySearchKeepsAllRequests([PostQuestion(s, profile, title, description, id, now).value]);
  }

  /** The outcome of the reply handler: the posted reply, if any, and the text
      left in the reply box. */
  datatype ReplyOutcome = ReplyOutcome(posted: Option<Reply>, input: string)

  /** `handlePostReply`. The id and the timestamp come from the runtime. */
  function PostReply(s: Session, profile: Option<UserDoc>, requestId: string, text: string,
                     id: string, now: string): (r: ReplyOutcome)
    ensures r.posted.None? <==> s.user.None? || !s.connected || AllSpace(text)
    ensures r.posted.None? ==> r.input == text
    ensures r.posted.Some? ==>
      var reply := r.posted.value;
      && r.input == ""
      && reply.id == id && reply.requestId == requestId && reply.timestamp == now
      && reply.authorId == s.user.value
      && reply.content != "" && IsTrimmed(reply.content) && Padded(text, reply.content)
    ensures r.posted.Some? ==> r.posted.value.authorName == SignedName(profile, "User")
    ensures r.posted.Some? ==> r.posted.value.authorRole == OrElse(RoleOf(profile), "member")
  {
    TrimEmptyIff(text);
    if s.user.None? || !s.connected || Trim(text) == "" then ReplyOutcome(None, text)
    else
      var name := SignedName(profile, "User");
      var role := OrElse(RoleOf(profile), "member");
      ReplyOutcome(Some(Reply(id, requestId, s.user.value, name, role, Trim(text), now)), "")
  }

  /** A reply posted without a loaded profile is signed "User " as a
      "member". */
  lemma ReplyDefaults(s: Session, requestId: string, text: string, id: string, now: string)
    requires s.user.Some? && s.connected && !AllSpace(text)
    ensures PostReply(s, None, requestId, text, id, now).posted.value.authorName == "User "
    ensures PostReply(s, None, requestId, text, id, now).posted.value.authorRole == "member"
  {
  }

  // ---------------------------------------------------------------------------
  // Selection
  // ---------------------------------------------------------------------------

  /** `selectedRequest`: the first request whose id is the selected one. With
      no selection the comparison is against `null` and finds nothing. */
  function SelectRequest(requests: Option<seq<GuidanceRequest>>, selected: Option<string>): (r: Option<GuidanceRequest>)
    ensures r.None? <==>
      requests.None? || selected.None? || forall q | q in requests.value :: q.id != selected.value
    ensures r.Some? ==>
      exists i | 0 <= i < |requests.value| ::
        && requests.value[i] == r.value
        && r.value.id == selected.value
        && forall j | 0 <= j < i :: requests.value[j].id != selected.value
  {
    if requests.None? || selected.None? then None
    else
      var sel := selected.value;
      var r := Find((q: GuidanceRequest) => q.id == sel, requests.value);
      assert r.Some? ==>
        exists i | 0 <= i < |requests.value| ::
          && requests.value[i] == r.value
          && r.value.id == sel
          && forall j | 0 <= j < i :: requests.value[j].id != sel
      by {
        if r.Some? {
          var i :| 0 <= i < |requests.value| && FirstAt((q: GuidanceRequest) => q.id == sel, requests.value, i)
                   && requests.value[i] == r.value;
        }
      }
      r
  }
}
